/**
 * The search documents `update_team_year_index` puts (lines 61-178): the
 * fields shared by every document, the counter fields of an event, year and
 * overall scope, and the documents themselves with their ids and indexes.
 * A document's field list becomes a map from field name to value; no two
 * fields the procedure builds share a name, so nothing is lost.
 *
 * The lemmas read the documents back: a counter field reports its scope's
 * count, a counter family only lists the keys that occurred, a year's
 * counters are the sums of its event documents' counters, the overall
 * counters are the sums of the year documents' counters, and the win
 * counters agree with the composite award counters.
 */
module Documents {
  import opened Records
  import opened Naming
  import opened Tally
  import opened Rollup

  datatype Value = Number(n: int) | Text(s: string) | Atom(s: string) | Geo(point: GeoPoint)

  type Fields = map<string, Value>

  /** `search.Document(doc_id=…, fields=…)` as put into the index named `index`. */
  datatype Document = Document(index: string, docId: string, fields: Fields)

  // Index names (lines 13-15)
  const TeamIndex := "team"
  const TeamYearIndex := "teamYear"
  const TeamEventIndex := "teamEvent"

  /** The numeric value of field `n`, or 0 when there is no such numeric field. */
  function NumberAt(f: Fields, n: string): int
  {
    if n in f && f[n].Number? then f[n].n else 0
  }

  // ----- the fields -----

  /** The fields every document starts with (lines 62-72). */
  function BaseFields(team: Team): (f: Fields)
    ensures forall n :: n in f ==> IsBaseName(n)
    ensures NumberName in f && NameName in f && NicknameName in f
    ensures f[NumberName] == Number(team.number)
    ensures f[NameName] == Text(team.name) && f[NicknameName] == Text(team.nickname)
    ensures LocationName in f <==> team.location.Some?
    ensures team.location.Some? ==> f[LocationName] == Geo(team.location.value)
  {
    var named := map[NumberName := Number(team.number), NameName := Text(team.name),
                     NicknameName := Text(team.nickname)];
    match team.location
    case None => named
    case Some(p) => named[LocationName := Geo(p)]
  }

  ghost predicate Injective<K(!new)>(name: K -> string)
  {
    forall k1, k2 :: name(k1) == name(k2) ==> k1 == k2
  }

  /** One `NumberField` per entry of a counter, named by `name` (the list comprehensions of lines 131-136). */
  function CounterFields<K(!new)>(m: map<K, nat>, name: K -> string): Fields
    requires Injective(name)
  {
    map k | k in m :: name(k) := Number(m[k])
  }

  lemma CounterFieldsAt<K(!new)>(m: map<K, nat>, name: K -> string, k: K)
    requires Injective(name)
    ensures name(k) in CounterFields(m, name) <==> k in m
    ensures k in m ==> CounterFields(m, name)[name(k)] == Number(m[k])
    ensures NumberAt(CounterFields(m, name), name(k)) == Get(m, k)
  {
  }

  lemma CounterFieldsNames<K(!new)>(m: map<K, nat>, name: K -> string, n: string)
    requires Injective(name)
    ensures n in CounterFields(m, name) ==> exists k :: name(k) == n
  {
  }

  function AwardFields(m: map<nat, nat>): Fields
  {
    AllNamesInjective();
    CounterFields(m, AwardName)
  }

  function EventAwardFields(m: map<string, nat>): Fields
  {
    AllNamesInjective();
    CounterFields(m, EventAwardName)
  }

  function EventTypeFields(m: map<nat, nat>): Fields
  {
    AllNamesInjective();
    CounterFields(m, EventTypeName)
  }

  /** The counter fields of an event document (lines 129-136). */
  function EventCounterFields(t: Tally): Fields
  {
    map[BlueBannerName := Number(t.bb)]
      + AwardFields(t.awardTypes) + EventAwardFields(t.eventAwardTypes)
  }

  /** The counter fields of a year or the overall document (lines 144-156 and 162-174). */
  function ScopeCounterFields(t: Tally): Fields
  {
    map[BlueBannerName := Number(t.bb), DivWinName := Number(t.divwin), CmpWinName := Number(t.cmpwin)]
      + AwardFields(t.awardTypes) + EventAwardFields(t.eventAwardTypes) + EventTypeFields(t.eventTypes)
  }

  /** The count that the counter field named `n` reports for a scope. */
  ghost function Counter(t: Tally, n: string): nat
  {
    if n == BlueBannerName then t.bb
    else if n == DivWinName then t.divwin
    else if n == CmpWinName then t.cmpwin
    else if IsAwardName(n) then var k :| AwardName(k) == n; Get(t.awardTypes, k)
    else if IsEventAwardName(n) then var k :| EventAwardName(k) == n; Get(t.eventAwardTypes, k)
    else if IsEventTypeName(n) then var k :| EventTypeName(k) == n; Get(t.eventTypes, k)
    else 0
  }

  lemma CounterAdd(x: Tally, y: Tally, n: string)
    ensures Counter(Add(x, y), n) == Counter(x, n) + Counter(y, n)
  {
    if IsAwardName(n) {
      var k :| AwardName(k) == n;
      CounterAddAt(x, y, k, "", 0);
    } else if IsEventAwardName(n) {
      var k :| EventAwardName(k) == n;
      CounterAddAt(x, y, 0, k, 0);
    } else if IsEventTypeName(n) {
      var k :| EventTypeName(k) == n;
      CounterAddAt(x, y, 0, "", k);
    }
  }

  lemma CounterAddAt(x: Tally, y: Tally, awardType: nat, key: string, eventType: nat)
    ensures Counter(Add(x, y), AwardName(awardType)) == Counter(x, AwardName(awardType)) + Counter(y, AwardName(awardType))
    ensures Counter(Add(x, y), EventAwardName(key)) == Counter(x, EventAwardName(key)) + Counter(y, EventAwardName(key))
    ensures Counter(Add(x, y), EventTypeName(eventType)) == Counter(x, EventTypeName(eventType)) + Counter(y, EventTypeName(eventType))
  {
    CounterAt(x, awardType, key, eventType);
    CounterAt(y, awardType, key, eventType);
    CounterAt(Add(x, y), awardType, key, eventType);
    MergeGet(x.awardTypes, y.awardTypes, awardType);
    MergeGet(x.eventAwardTypes, y.eventAwardTypes, key);
    MergeGet(x.eventTypes, y.eventTypes, eventType);
  }

  lemma CounterZero(n: string)
    ensures Counter(Zero(), n) == 0
  {
  }

  /** Which part of a union a field is read from. */
  lemma UnionRead(a: Fields, b: Fields, n: string)
    ensures n in a + b <==> n in a || n in b
    ensures NumberAt(a + b, n) == if n in b then NumberAt(b, n) else NumberAt(a, n)
  {
  }

  lemma AwardFieldsRead(t: Tally, n: string)
    ensures n in AwardFields(t.awardTypes) ==> IsAwardName(n)
    ensures IsAwardName(n) ==> NumberAt(AwardFields(t.awardTypes), n) == Counter(t, n)
    ensures IsAwardName(n) && SparseTally(t) ==> (n in AwardFields(t.awardTypes) <==> Counter(t, n) >= 1)
  {
    AllNamesInjective();
    NameKind(n);
    CounterFieldsNames(t.awardTypes, AwardName, n);
    if IsAwardName(n) {
      var k :| AwardName(k) == n;
      CounterFieldsAt(t.awardTypes, AwardName, k);
    }
  }

  lemma EventAwardFieldsRead(t: Tally, n: string)
    ensures n in EventAwardFields(t.eventAwardTypes) ==> IsEventAwardName(n)
    ensures IsEventAwardName(n) ==> NumberAt(EventAwardFields(t.eventAwardTypes), n) == Counter(t, n)
    ensures IsEventAwardName(n) && SparseTally(t) ==> (n in EventAwardFields(t.eventAwardTypes) <==> Counter(t, n) >= 1)
  {
    AllNamesInjective();
    NameKind(n);
    CounterFieldsNames(t.eventAwardTypes, EventAwardName, n);
    if IsEventAwardName(n) {
      var k :| EventAwardName(k) == n;
      CounterFieldsAt(t.eventAwardTypes, EventAwardName, k);
    }
  }

  lemma EventTypeFieldsRead(t: Tally, n: string)
    ensures n in EventTypeFields(t.eventTypes) ==> IsEventTypeName(n)
    ensures IsEventTypeName(n) ==> NumberAt(EventTypeFields(t.eventTypes), n) == Counter(t, n)
    ensures IsEventTypeName(n) && SparseTally(t) ==> (n in EventTypeFields(t.eventTypes) <==> Counter(t, n) >= 1)
  {
    AllNamesInjective();
    NameKind(n);
    CounterFieldsNames(t.eventTypes, EventTypeName, n);
    if IsEventTypeName(n) {
      var k :| EventTypeName(k) == n;
      CounterFieldsAt(t.eventTypes, EventTypeName, k);
    }
  }

  /** Reading the counter fields of a year or the overall document. */
  lemma ScopeFieldsRead(t: Tally, n: string)
    requires IsCounterName(n)
    ensures NumberAt(ScopeCounterFields(t), n) == Counter(t, n)
    ensures SparseTally(t) ==>
      (n in ScopeCounterFields(t) <==> n in {BlueBannerName, DivWinName, CmpWinName} || Counter(t, n) >= 1)
  {
    NameKind(n);
    if IsAwardName(n) || IsEventAwardName(n) || IsEventTypeName(n) {
      ScopeFamilyRead(t, n);
    } else {
      ScopeFixedRead(t, n);
    }
  }

  /** The three fixed counters are always present. */
  lemma ScopeFixedRead(t: Tally, n: string)
    requires n == BlueBannerName || n == DivWinName || n == CmpWinName
    ensures n in ScopeCounterFields(t) && NumberAt(ScopeCounterFields(t), n) == Counter(t, n)
  {
    NameKind(n);
    var fixed := map[BlueBannerName := Number(t.bb), DivWinName := Number(t.divwin), CmpWinName := Number(t.cmpwin)];
    var af, ef, tf := AwardFields(t.awardTypes), EventAwardFields(t.eventAwardTypes), EventTypeFields(t.eventTypes);
    AwardFieldsRead(t, n);
    EventAwardFieldsRead(t, n);
    EventTypeFieldsRead(t, n);
    UnionRead(fixed, af, n);
    UnionRead(fixed + af, ef, n);
    UnionRead(fixed + af + ef, tf, n);
  }

  /** A family counter is read from its own family's fields. */
  lemma ScopeFamilyRead(t: Tally, n: string)
    requires IsAwardName(n) || IsEventAwardName(n) || IsEventTypeName(n)
    ensures NumberAt(ScopeCounterFields(t), n) == Counter(t, n)
    ensures SparseTally(t) ==> (n in ScopeCounterFields(t) <==> Counter(t, n) >= 1)
    ensures n != BlueBannerName && n != DivWinName && n != CmpWinName
  {
    NameKind(n);
    var fixed := map[BlueBannerName := Number(t.bb), DivWinName := Number(t.divwin), CmpWinName := Number(t.cmpwin)];
    var af, ef, tf := AwardFields(t.awardTypes), EventAwardFields(t.eventAwardTypes), EventTypeFields(t.eventTypes);
    assert n !in fixed;
    AwardFieldsRead(t, n);
    EventAwardFieldsRead(t, n);
    EventTypeFieldsRead(t, n);
    UnionRead(fixed, af, n);
    UnionRead(fixed + af, ef, n);
    UnionRead(fixed + af + ef, tf, n);
  }

  /** Reading the counter fields of an event document. */
  lemma EventFieldsRead(t: Tally, n: string)
    requires IsEventCounterName(n)
    ensures NumberAt(EventCounterFields(t), n) == Counter(t, n)
    ensures SparseTally(t) ==> (n in EventCounterFields(t) <==> n == BlueBannerName || Counter(t, n) >= 1)
  {
    NameKind(n);
    var fixed := map[BlueBannerName := Number(t.bb)];
    var af, ef := AwardFields(t.awardTypes), EventAwardFields(t.eventAwardTypes);
    AwardFieldsRead(t, n);
    EventAwardFieldsRead(t, n);
    UnionRead(fixed, af, n);
    UnionRead(fixed + af, ef, n);
  }

  /** An event document carries no win counters and no event-type counters. */
  lemma EventFieldsNames(t: Tally, n: string)
    ensures n in EventCounterFields(t) ==> IsEventCounterName(n)
  {
    AwardFieldsRead(t, n);
    EventAwardFieldsRead(t, n);
  }

  lemma ScopeFieldsNames(t: Tally, n: string)
    ensures n in ScopeCounterFields(t) ==> IsCounterName(n)
  {
    AwardFieldsRead(t, n);
    EventAwardFieldsRead(t, n);
    EventTypeFieldsRead(t, n);
  }

  /** The counter named after a key reports that key's count. */
  lemma CounterAt(t: Tally, awardType: nat, key: string, eventType: nat)
    ensures Counter(t, AwardName(awardType)) == Get(t.awardTypes, awardType)
    ensures Counter(t, EventAwardName(key)) == Get(t.eventAwardTypes, key)
    ensures Counter(t, EventTypeName(eventType)) == Get(t.eventTypes, eventType)
  {
    AllNamesInjective();
    NameKind(AwardName(awardType));
    NameKind(EventAwardName(key));
    NameKind(EventTypeName(eventType));
  }

  /** Counting an event's type changes no counter outside the event-type family. */
  lemma CounterCountEventType(t: Tally, eventType: nat, n: string)
    requires !IsEventTypeName(n)
    ensures Counter(CountEventType(t, eventType), n) == Counter(t, n)
  {
  }

  // ----- the documents -----

  /** The document of one in-season event (lines 97-98 and 129-141). */
  function EventDoc(cfg: Config, team: Team, awards: seq<Award>, e: Event): (d: Document)
    ensures d.index == TeamEventIndex && d.docId == EventDocId(team.key, e.key)
  {
    Document(TeamEventIndex, EventDocId(team.key, e.key),
      EventHead(team, e) + EventCounterFields(AwardsTally(cfg, AwardsOf(awards, e.key))))
  }

  /** The document of a year whose events are `yearEvents` (lines 80 and 143-160). */
  function YearScopeDoc(cfg: Config, team: Team, awards: seq<Award>, year: nat, yearEvents: seq<Event>): (d: Document)
    ensures d.index == TeamYearIndex && d.docId == YearDocId(team.key, year)
  {
    Document(TeamYearIndex, YearDocId(team.key, year),
             YearHead(team, year) + ScopeCounterFields(SumTally(cfg, awards, yearEvents)))
  }

  /** The document of one year of the team's events. */
  function YearDoc(cfg: Config, team: Team, events: seq<Event>, awards: seq<Award>, year: nat): Document
  {
    YearScopeDoc(cfg, team, awards, year, YearEvents(events, year))
  }

  /** The team's overall document (lines 161-178). */
  function OverallDoc(cfg: Config, team: Team, events: seq<Event>, awards: seq<Award>): (d: Document)
    ensures d.index == TeamIndex && d.docId == team.key
  {
    Document(TeamIndex, OverallDocId(team.key),
      BaseFields(team) + ScopeCounterFields(OverallTally(cfg, events, awards)))
  }

  /** The event documents put while visiting `es`, skipping out-of-season events (lines 88-141). */
  function EventDocs(cfg: Config, team: Team, awards: seq<Award>, es: seq<Event>): seq<Document>
  {
    if es == [] then []
    else
      var last := es[|es| - 1];
      var rest := EventDocs(cfg, team, awards, es[..|es| - 1]);
      if InSeason(cfg, last) then rest + [EventDoc(cfg, team, awards, last)] else rest
  }

  /** The puts made while visiting the years in the order `years` (lines 79-160). */
  function YearPuts(cfg: Config, team: Team, events: seq<Event>, awards: seq<Award>, years: seq<nat>): seq<Document>
  {
    if years == [] then []
    else
      var y := years[|years| - 1];
      YearPuts(cfg, team, events, awards, years[..|years| - 1])
        + EventDocs(cfg, team, awards, YearEvents(events, y)) + [YearDoc(cfg, team, events, awards, y)]
  }

  /** Every put of one run, in order, when the years are visited in the order `years`. */
  function ExpectedPuts(cfg: Config, team: Team, events: seq<Event>, awards: seq<Award>, years: seq<nat>): seq<Document>
  {
    YearPuts(cfg, team, events, awards, years) + [OverallDoc(cfg, team, events, awards)]
  }

  /** The documents put into one index, in order. */
  function InIndex(docs: seq<Document>, index: string): (r: seq<Document>)
    ensures forall d :: d in r ==> d in docs && d.index == index
  {
    if docs == [] then []
    else
      var last := docs[|docs| - 1];
      var rest := InIndex(docs[..|docs| - 1], index);
      if last.index == index then rest + [last] else rest
  }

  /** The year documents of `years`, in order. */
  function YearDocs(cfg: Config, team: Team, events: seq<Event>, awards: seq<Award>, years: seq<nat>): seq<Document>
  {
    if years == [] then []
    else YearDocs(cfg, team, events, awards, years[..|years| - 1]) + [YearDoc(cfg, team, events, awards, years[|years| - 1])]
  }

  /** The sum of field `n` over a list of documents. */
  function SumNumbers(docs: seq<Document>, n: string): int
  {
    if docs == [] then 0
    else SumNumbers(docs[..|docs| - 1], n) + NumberAt(docs[|docs| - 1].fields, n)
  }

  // ----- reading the documents back -----

  /** No counter name is one of the fields every document starts with, nor `year` or `event_key`. */
  lemma CounterNameNotBase(team: Team, n: string)
    requires IsCounterName(n)
    ensures n !in BaseFields(team) && n != YearName && n != EventKeyName
  {
    HeadNamesNotCounters();
  }

  /**
   * A counter field of an event document reports the count of the event's
   * awards; a family field is present only when its count is at least one.
   */
  lemma EventDocRead(cfg: Config, team: Team, awards: seq<Award>, e: Event, n: string)
    requires IsEventCounterName(n)
    ensures NumberAt(EventDoc(cfg, team, awards, e).fields, n) == Counter(AwardsTally(cfg, AwardsOf(awards, e.key)), n)
    ensures n in EventDoc(cfg, team, awards, e).fields
        <==> n == BlueBannerName || Counter(AwardsTally(cfg, AwardsOf(awards, e.key)), n) >= 1
  {
    var t := AwardsTally(cfg, AwardsOf(awards, e.key));
    var head := EventHead(team, e);
    CounterNameNotBase(team, n);
    AwardsTallyInvariants(cfg, AwardsOf(awards, e.key));
    EventFieldsRead(t, n);
    UnionRead(head, EventCounterFields(t), n);
  }

  /** Adding fields under fresh names keeps the earlier fields and adds nothing else. */
  lemma DisjointUnion(head: Fields, rest: Fields)
    requires forall n :: n in head ==> n !in rest
    ensures forall n :: n in head ==> n in head + rest && (head + rest)[n] == head[n]
    ensures forall n :: n in head + rest ==> n in head || n in rest
  {
  }

  /** The fields an event document starts with: the team's, the year and the event key. */
  function EventHead(team: Team, e: Event): (f: Fields)
    ensures forall n :: n in BaseFields(team) ==> (n in f && f[n] == BaseFields(team)[n])
    ensures YearName in f && EventKeyName in f
    ensures f[YearName] == Number(e.year) && f[EventKeyName] == Atom(e.key)
    ensures forall n :: n in f ==> n in BaseFields(team) || n == YearName || n == EventKeyName
  {
    BaseFields(team) + map[YearName := Number(e.year)] + map[EventKeyName := Atom(e.key)]
  }

  /**
   * An event document holds the team's fields, its year and its key, and
   * otherwise only blue-banner, award and composite counters: no win
   * counters and no event-type counters.
   */
  lemma EventDocShape(cfg: Config, team: Team, awards: seq<Award>, e: Event)
    ensures forall n :: n in BaseFields(team) ==>
      (n in EventDoc(cfg, team, awards, e).fields && EventDoc(cfg, team, awards, e).fields[n] == BaseFields(team)[n])
    ensures EventDoc(cfg, team, awards, e).fields[YearName] == Number(e.year)
    ensures EventDoc(cfg, team, awards, e).fields[EventKeyName] == Atom(e.key)
    ensures forall n :: n in EventDoc(cfg, team, awards, e).fields ==>
      n in BaseFields(team) || n == YearName || n == EventKeyName || IsEventCounterName(n)
  {
    var t := AwardsTally(cfg, AwardsOf(awards, e.key));
    var head, rest := EventHead(team, e), EventCounterFields(t);
    forall n | n in head ensures n !in rest {
      EventFieldsNames(t, n);
      if IsEventCounterName(n) { CounterNameNotBase(team, n); }
    }
    DisjointUnion(head, rest);
    forall n | n in rest ensures IsEventCounterName(n) {
      EventFieldsNames(t, n);
    }
    assert EventDoc(cfg, team, awards, e).fields == head + rest;
  }

  /** An event document has no win counters (they are kept only for years and overall). */
  lemma EventDocNoWins(cfg: Config, team: Team, awards: seq<Award>, e: Event)
    ensures DivWinName !in EventDoc(cfg, team, awards, e).fields
    ensures CmpWinName !in EventDoc(cfg, team, awards, e).fields
  {
    EventDocShape(cfg, team, awards, e);
    WinNamesNotEventCounters();
    OtherFixedNamesNotBase();
  }

  /** An event document has no event-type counter. */
  lemma EventDocNoEventTypes(cfg: Config, team: Team, awards: seq<Award>, e: Event, eventType: nat)
    ensures EventTypeName(eventType) !in EventDoc(cfg, team, awards, e).fields
  {
    EventDocShape(cfg, team, awards, e);
    EventTypeNotEventCounter(eventType);
  }

  /**
   * A counter field of a year document reports the count of the year's
   * in-season events; a family field is present only when its count is at
   * least one.
   */
  lemma YearDocRead(cfg: Config, team: Team, events: seq<Event>, awards: seq<Award>, year: nat, n: string)
    requires IsCounterName(n)
    ensures NumberAt(YearDoc(cfg, team, events, awards, year).fields, n) == Counter(YearTally(cfg, events, awards, year), n)
    ensures n in YearDoc(cfg, team, events, awards, year).fields
        <==> n in {BlueBannerName, DivWinName, CmpWinName} || Counter(YearTally(cfg, events, awards, year), n) >= 1
  {
    var t := YearTally(cfg, events, awards, year);
    CounterNameNotBase(team, n);
    SumTallyInvariants(cfg, awards, YearEvents(events, year));
    ScopeFieldsRead(t, n);
    UnionRead(YearHead(team, year), ScopeCounterFields(t), n);
  }

  /** A counter field of the overall document reports the count over all in-season events. */
  lemma OverallDocRead(cfg: Config, team: Team, events: seq<Event>, awards: seq<Award>, n: string)
    requires IsCounterName(n)
    ensures NumberAt(OverallDoc(cfg, team, events, awards).fields, n) == Counter(OverallTally(cfg, events, awards), n)
    ensures n in OverallDoc(cfg, team, events, awards).fields
        <==> n in {BlueBannerName, DivWinName, CmpWinName} || Counter(OverallTally(cfg, events, awards), n) >= 1
  {
    var t := OverallTally(cfg, events, awards);
    CounterNameNotBase(team, n);
    SumTallyInvariants(cfg, awards, events);
    ScopeFieldsRead(t, n);
    UnionRead(BaseFields(team), ScopeCounterFields(t), n);
  }

  /** The fields a year document starts with: the team's and the year. */
  function YearHead(team: Team, year: nat): (f: Fields)
    ensures forall n :: n in BaseFields(team) ==> (n in f && f[n] == BaseFields(team)[n])
    ensures YearName in f && f[YearName] == Number(year)
    ensures forall n :: n in f ==> n in BaseFields(team) || n == YearName
  {
    BaseFields(team) + map[YearName := Number(year)]
  }

  /** A year document holds the team's fields, its year, and otherwise only counters. */
  lemma YearDocShape(cfg: Config, team: Team, events: seq<Event>, awards: seq<Award>, year: nat)
    ensures forall n :: n in BaseFields(team) ==>
      (n in YearDoc(cfg, team, events, awards, year).fields && YearDoc(cfg, team, events, awards, year).fields[n] == BaseFields(team)[n])
    ensures YearDoc(cfg, team, events, awards, year).fields[YearName] == Number(year)
    ensures forall n :: n in YearDoc(cfg, team, events, awards, year).fields ==>
      n in BaseFields(team) || n == YearName || IsCounterName(n)
  {
    var t := YearTally(cfg, events, awards, year);
    var head, rest := YearHead(team, year), ScopeCounterFields(t);
    forall n | n in head ensures n !in rest {
      ScopeFieldsNames(t, n);
      if IsCounterName(n) { CounterNameNotBase(team, n); }
    }
    DisjointUnion(head, rest);
    forall n | n in rest ensures IsCounterName(n) {
      ScopeFieldsNames(t, n);
    }
    assert YearDoc(cfg, team, events, awards, year).fields == head + rest;
  }

  /** The overall document holds the team's fields and otherwise only counters; it has no `year`. */
  lemma OverallDocShape(cfg: Config, team: Team, events: seq<Event>, awards: seq<Award>)
    ensures forall n :: n in BaseFields(team) ==>
      (n in OverallDoc(cfg, team, events, awards).fields && OverallDoc(cfg, team, events, awards).fields[n] == BaseFields(team)[n])
    ensures forall n :: n in OverallDoc(cfg, team, events, awards).fields ==> n in BaseFields(team) || IsCounterName(n)
  {
    var t := OverallTally(cfg, events, awards);
    var head, rest := BaseFields(team), ScopeCounterFields(t);
    forall n | n in head ensures n !in rest {
      ScopeFieldsNames(t, n);
      if IsCounterName(n) { CounterNameNotBase(team, n); }
    }
    DisjointUnion(head, rest);
    forall n | n in rest ensures IsCounterName(n) {
      ScopeFieldsNames(t, n);
    }
    assert OverallDoc(cfg, team, events, awards).fields == head + rest;
  }

  /** Unlike the year documents, the overall document has no `year` field. */
  lemma OverallDocNoYear(cfg: Config, team: Team, events: seq<Event>, awards: seq<Award>)
    ensures YearName !in OverallDoc(cfg, team, events, awards).fields
  {
    OverallDocShape(cfg, team, events, awards);
    HeadNamesNotCounters();
    OtherFixedNamesNotBase();
  }

  // ----- sums across documents -----

  lemma SumNumbersSnoc(docs: seq<Document>, d: Document, n: string)
    ensures SumNumbers(docs + [d], n) == SumNumbers(docs, n) + NumberAt(d.fields, n)
  {
    assert (docs + [d])[..|docs|] == docs;
  }

  lemma {:induction false} SumNumbersAppend(a: seq<Document>, b: seq<Document>, n: string)
    ensures SumNumbers(a + b, n) == SumNumbers(a, n) + SumNumbers(b, n)
  {
    if b != [] {
      var pre, last := b[..|b| - 1], b[|b| - 1];
      SplitLast(b);
      assert a + b == (a + pre) + [last];
      SumNumbersAppend(a, pre, n);
      SumNumbersSnoc(a + pre, last, n);
      SumNumbersSnoc(pre, last, n);
    } else {
      assert a + b == a;
    }
  }

  /** Summing a field over the event documents, split off at the last event. */
  lemma EventDocsSumLast(cfg: Config, team: Team, awards: seq<Award>, es: seq<Event>, n: string)
    requires es != []
    ensures SumNumbers(EventDocs(cfg, team, awards, es), n)
         == SumNumbers(EventDocs(cfg, team, awards, es[..|es| - 1]), n)
            + if InSeason(cfg, es[|es| - 1]) then NumberAt(EventDoc(cfg, team, awards, es[|es| - 1]).fields, n) else 0
  {
    if InSeason(cfg, es[|es| - 1]) {
      SumNumbersSnoc(EventDocs(cfg, team, awards, es[..|es| - 1]), EventDoc(cfg, team, awards, es[|es| - 1]), n);
    }
  }

  /** What one event adds to an event-level counter is what its document reports, if it is put. */
  lemma ContributionRead(cfg: Config, team: Team, awards: seq<Award>, e: Event, n: string)
    requires IsEventCounterName(n)
    ensures Counter(Contribution(cfg, awards, e), n)
         == if InSeason(cfg, e) then NumberAt(EventDoc(cfg, team, awards, e).fields, n) else 0
  {
    if InSeason(cfg, e) {
      NameKind(n);
      CounterCountEventType(AwardsTally(cfg, AwardsOf(awards, e.key)), e.eventType, n);
      EventDocRead(cfg, team, awards, e, n);
    } else {
      CounterZero(n);
    }
  }

  /**
   * Each event-level counter of a scope built from `es` is the sum of that
   * field over the event documents put for `es`.
   */
  lemma {:induction false} ScopeSumOfEventDocs(cfg: Config, team: Team, awards: seq<Award>, es: seq<Event>, n: string)
    requires IsEventCounterName(n)
    ensures Counter(SumTally(cfg, awards, es), n) == SumNumbers(EventDocs(cfg, team, awards, es), n)
  {
    if es == [] {
      CounterZero(n);
    } else {
      var pre, last := es[..|es| - 1], es[|es| - 1];
      ScopeSumOfEventDocs(cfg, team, awards, pre, n);
      SumTallyLast(cfg, awards, es);
      CounterAdd(SumTally(cfg, awards, pre), Contribution(cfg, awards, last), n);
      ContributionRead(cfg, team, awards, last, n);
      EventDocsSumLast(cfg, team, awards, es, n);
    }
  }

  /**
   * The blue-banner, award and composite counters of a year document are
   * the sums of the same fields over the event documents of that year.
   */
  lemma YearFromEvents(cfg: Config, team: Team, events: seq<Event>, awards: seq<Award>, year: nat, n: string)
    requires IsEventCounterName(n)
    ensures NumberAt(YearDoc(cfg, team, events, awards, year).fields, n)
         == SumNumbers(EventDocs(cfg, team, awards, YearEvents(events, year)), n)
  {
    YearDocRead(cfg, team, events, awards, year, n);
    ScopeSumOfEventDocs(cfg, team, awards, YearEvents(events, year), n);
  }

  lemma {:induction false} YearDocsSum(cfg: Config, team: Team, events: seq<Event>, awards: seq<Award>, years: seq<nat>, n: string)
    requires IsCounterName(n)
    ensures SumNumbers(YearDocs(cfg, team, events, awards, years), n) == Counter(SumYears(cfg, events, awards, years), n)
  {
    if years == [] {
      CounterZero(n);
    } else {
      var pre, last := years[..|years| - 1], years[|years| - 1];
      YearDocsSum(cfg, team, events, awards, pre, n);
      CounterAdd(SumYears(cfg, events, awards, pre), YearTally(cfg, events, awards, last), n);
      YearDocRead(cfg, team, events, awards, last, n);
      SumNumbersSnoc(YearDocs(cfg, team, events, awards, pre), YearDoc(cfg, team, events, awards, last), n);
    }
  }

  /**
   * Every counter of the overall document is the sum of that field over the
   * year documents, whatever order the years are visited in, provided each
   * year of an event is visited once.
   */
  lemma OverallFromYears(cfg: Config, team: Team, events: seq<Event>, awards: seq<Award>, years: seq<nat>, n: string)
    requires NoDuplicates(years)
    requires EventYears(events) <= Elems(years)
    requires IsCounterName(n)
    ensures NumberAt(OverallDoc(cfg, team, events, awards).fields, n) == SumNumbers(YearDocs(cfg, team, events, awards, years), n)
  {
    OverallDocRead(cfg, team, events, awards, n);
    OverallIsSumOfYears(cfg, events, awards, years);
    YearDocsSum(cfg, team, events, awards, years, n);
  }

  // ----- the sequence of puts -----

  /** The event documents put while visiting the years in the order `years`. */
  function EventPuts(cfg: Config, team: Team, events: seq<Event>, awards: seq<Award>, years: seq<nat>): seq<Document>
  {
    if years == [] then []
    else EventPuts(cfg, team, events, awards, years[..|years| - 1])
           + EventDocs(cfg, team, awards, YearEvents(events, years[|years| - 1]))
  }

  lemma {:induction false} InIndexAppend(a: seq<Document>, b: seq<Document>, index: string)
    ensures InIndex(a + b, index) == InIndex(a, index) + InIndex(b, index)
  {
    if b == [] {
      assert a + b == a;
    } else {
      var pre, last := b[..|b| - 1], b[|b| - 1];
      SplitLast(b);
      assert a + b == (a + pre) + [last];
      InIndexAppend(a, pre, index);
    }
  }

  lemma {:induction false} EventDocsIndex(cfg: Config, team: Team, awards: seq<Award>, es: seq<Event>, index: string)
    ensures InIndex(EventDocs(cfg, team, awards, es), index) == if index == TeamEventIndex then EventDocs(cfg, team, awards, es) else []
  {
    if es != [] {
      var pre, last := es[..|es| - 1], es[|es| - 1];
      EventDocsIndex(cfg, team, awards, pre, index);
      if InSeason(cfg, last) {
        InIndexAppend(EventDocs(cfg, team, awards, pre), [EventDoc(cfg, team, awards, last)], index);
      }
    }
  }

  /** Filtering the puts of one year: the earlier puts, the event documents, then the year document. */
  lemma InIndexThree(prev: seq<Document>, docs: seq<Document>, d: Document, index: string)
    ensures InIndex(prev + docs + [d], index)
         == InIndex(prev, index) + InIndex(docs, index) + (if d.index == index then [d] else [])
  {
    InIndexAppend(prev + docs, [d], index);
    InIndexAppend(prev, docs, index);
  }

  /** The event documents among the puts of the year loop. */
  lemma {:induction false} YearPutsEventIndex(cfg: Config, team: Team, events: seq<Event>, awards: seq<Award>, years: seq<nat>)
    ensures InIndex(YearPuts(cfg, team, events, awards, years), TeamEventIndex) == EventPuts(cfg, team, events, awards, years)
  {
    if years != [] {
      var pre, y := years[..|years| - 1], years[|years| - 1];
      var prev, docs := YearPuts(cfg, team, events, awards, pre), EventDocs(cfg, team, awards, YearEvents(events, y));
      YearPutsEventIndex(cfg, team, events, awards, pre);
      InIndexThree(prev, docs, YearDoc(cfg, team, events, awards, y), TeamEventIndex);
      EventDocsIndex(cfg, team, awards, YearEvents(events, y), TeamEventIndex);
      assert InIndex(prev, TeamEventIndex) + docs + [] == InIndex(prev, TeamEventIndex) + docs;
    }
  }

  /** The year documents among the puts of the year loop, in visiting order. */
  lemma {:induction false} YearPutsYearIndex(cfg: Config, team: Team, events: seq<Event>, awards: seq<Award>, years: seq<nat>)
    ensures InIndex(YearPuts(cfg, team, events, awards, years), TeamYearIndex) == YearDocs(cfg, team, events, awards, years)
  {
    if years != [] {
      var pre, y := years[..|years| - 1], years[|years| - 1];
      var prev, docs := YearPuts(cfg, team, events, awards, pre), EventDocs(cfg, team, awards, YearEvents(events, y));
      YearPutsYearIndex(cfg, team, events, awards, pre);
      InIndexThree(prev, docs, YearDoc(cfg, team, events, awards, y), TeamYearIndex);
      EventDocsIndex(cfg, team, awards, YearEvents(events, y), TeamYearIndex);
      assert InIndex(prev, TeamYearIndex) + [] == InIndex(prev, TeamYearIndex);
    }
  }

  /** The year loop puts nothing into the team index. */
  lemma {:induction false} YearPutsTeamIndex(cfg: Config, team: Team, events: seq<Event>, awards: seq<Award>, years: seq<nat>)
    ensures InIndex(YearPuts(cfg, team, events, awards, years), TeamIndex) == []
  {
    if years != [] {
      var pre, y := years[..|years| - 1], years[|years| - 1];
      var prev, docs := YearPuts(cfg, team, events, awards, pre), EventDocs(cfg, team, awards, YearEvents(events, y));
      YearPutsTeamIndex(cfg, team, events, awards, pre);
      InIndexThree(prev, docs, YearDoc(cfg, team, events, awards, y), TeamIndex);
      EventDocsIndex(cfg, team, awards, YearEvents(events, y), TeamIndex);
    }
  }

  lemma {:induction false} YearPutsLength(cfg: Config, team: Team, events: seq<Event>, awards: seq<Award>, years: seq<nat>)
    ensures |YearPuts(cfg, team, events, awards, years)| == |EventPuts(cfg, team, events, awards, years)| + |years|
  {
    if years != [] {
      YearPutsLength(cfg, team, events, awards, years[..|years| - 1]);
    }
  }

  /**
   * The puts of one run, split by index: the event documents, the year
   * documents in visiting order, and the overall document, put last and
   * alone in its index.
   */
  lemma PutsByIndex(cfg: Config, team: Team, events: seq<Event>, awards: seq<Award>, years: seq<nat>)
    ensures InIndex(ExpectedPuts(cfg, team, events, awards, years), TeamEventIndex) == EventPuts(cfg, team, events, awards, years)
    ensures InIndex(ExpectedPuts(cfg, team, events, awards, years), TeamYearIndex) == YearDocs(cfg, team, events, awards, years)
    ensures InIndex(ExpectedPuts(cfg, team, events, awards, years), TeamIndex) == [OverallDoc(cfg, team, events, awards)]
    ensures |ExpectedPuts(cfg, team, events, awards, years)| == |EventPuts(cfg, team, events, awards, years)| + |years| + 1
    ensures ExpectedPuts(cfg, team, events, awards, years)[|ExpectedPuts(cfg, team, events, awards, years)| - 1]
         == OverallDoc(cfg, team, events, awards)
  {
    var prev, last := YearPuts(cfg, team, events, awards, years), [OverallDoc(cfg, team, events, awards)];
    YearPutsEventIndex(cfg, team, events, awards, years);
    YearPutsYearIndex(cfg, team, events, awards, years);
    YearPutsTeamIndex(cfg, team, events, awards, years);
    YearPutsLength(cfg, team, events, awards, years);
    InIndexAppend(prev, last, TeamEventIndex);
    InIndexAppend(prev, last, TeamYearIndex);
    InIndexAppend(prev, last, TeamIndex);
  }

  // ----- which event documents are put -----

  lemma {:induction false} EventDocsLength(cfg: Config, team: Team, awards: seq<Award>, es: seq<Event>)
    ensures |EventDocs(cfg, team, awards, es)| == |InSeasonEvents(cfg, es)|
  {
    if es != [] {
      EventDocsLength(cfg, team, awards, es[..|es| - 1]);
    }
  }

  lemma {:induction false} EventPutsCount(cfg: Config, team: Team, events: seq<Event>, awards: seq<Award>, years: seq<nat>)
    ensures |EventPuts(cfg, team, events, awards, years)| == SumValues(SumYears(cfg, events, awards, years).eventTypes)
  {
    if years == [] {
      assert SumValues(Zero().eventTypes) == 0;
    } else {
      var pre, y := years[..|years| - 1], years[|years| - 1];
      var es := YearEvents(events, y);
      EventPutsCount(cfg, team, events, awards, pre);
      EventDocsLength(cfg, team, awards, es);
      EventTypeTotal(cfg, awards, es);
      SumValuesMerge(SumYears(cfg, events, awards, pre).eventTypes, SumTally(cfg, awards, es).eventTypes);
    }
  }

  /** One event document is put per in-season event, when each year of an event is visited once. */
  lemma EventPutsTotal(cfg: Config, team: Team, events: seq<Event>, awards: seq<Award>, years: seq<nat>)
    requires NoDuplicates(years)
    requires EventYears(events) <= Elems(years)
    ensures |EventPuts(cfg, team, events, awards, years)| == |InSeasonEvents(cfg, events)|
  {
    EventPutsCount(cfg, team, events, awards, years);
    OverallIsSumOfYears(cfg, events, awards, years);
    EventTypeTotal(cfg, awards, events);
  }

  lemma YearEventsMember(events: seq<Event>, year: nat, e: Event)
    ensures e in YearEvents(events, year) <==> e in events && e.year == year
  {
    YearEventsExactlyOnce(events, year, e);
  }

  lemma {:induction false} EventDocsComplete(cfg: Config, team: Team, awards: seq<Award>, es: seq<Event>, e: Event)
    requires e in es && InSeason(cfg, e)
    ensures EventDoc(cfg, team, awards, e) in EventDocs(cfg, team, awards, es)
  {
    var pre, last := es[..|es| - 1], es[|es| - 1];
    SplitLast(es);
    if e != last {
      EventDocsComplete(cfg, team, awards, pre, e);
    }
  }

  /** Membership in the event documents of a list, one event at a time. */
  lemma EventDocsSnoc(cfg: Config, team: Team, awards: seq<Award>, es: seq<Event>, d: Document)
    requires es != []
    ensures d in EventDocs(cfg, team, awards, es) <==>
      d in EventDocs(cfg, team, awards, es[..|es| - 1])
      || (InSeason(cfg, es[|es| - 1]) && d == EventDoc(cfg, team, awards, es[|es| - 1]))
  {
  }

  lemma {:induction false} EventDocsSound(cfg: Config, team: Team, awards: seq<Award>, es: seq<Event>, d: Document)
    requires d in EventDocs(cfg, team, awards, es)
    ensures exists e :: e in es && InSeason(cfg, e) && d == EventDoc(cfg, team, awards, e)
  {
    var pre, last := es[..|es| - 1], es[|es| - 1];
    EventDocsSnoc(cfg, team, awards, es, d);
    if InSeason(cfg, last) && d == EventDoc(cfg, team, awards, last) {
      assert last in es;
    } else {
      EventDocsSound(cfg, team, awards, pre, d);
      var e :| e in pre && InSeason(cfg, e) && d == EventDoc(cfg, team, awards, e);
      assert e in es;
    }
  }

  /** Every in-season event of a visited year has its document put. */
  lemma {:induction false} EventPutsComplete(cfg: Config, team: Team, events: seq<Event>, awards: seq<Award>, years: seq<nat>, e: Event)
    requires e in events && InSeason(cfg, e) && e.year in Elems(years)
    ensures EventDoc(cfg, team, awards, e) in EventPuts(cfg, team, events, awards, years)
  {
    var pre, y := years[..|years| - 1], years[|years| - 1];
    SplitLast(years);
    if e.year == y {
      YearEventsMember(events, y, e);
      EventDocsComplete(cfg, team, awards, YearEvents(events, y), e);
    } else {
      assert e.year in Elems(pre);
      EventPutsComplete(cfg, team, events, awards, pre, e);
    }
  }

  /** Every event document put belongs to an in-season event of the team. */
  lemma {:induction false} EventPutsSound(cfg: Config, team: Team, events: seq<Event>, awards: seq<Award>, years: seq<nat>, d: Document)
    requires d in EventPuts(cfg, team, events, awards, years)
    ensures exists e :: e in events && InSeason(cfg, e) && e.year in Elems(years) && d == EventDoc(cfg, team, awards, e)
  {
    var pre, y := years[..|years| - 1], years[|years| - 1];
    SplitLast(years);
    if d in EventPuts(cfg, team, events, awards, pre) {
      EventPutsSound(cfg, team, events, awards, pre, d);
      var e :| e in events && InSeason(cfg, e) && e.year in Elems(pre) && d == EventDoc(cfg, team, awards, e);
      assert e.year in Elems(years);
    } else {
      EventDocsSound(cfg, team, awards, YearEvents(events, y), d);
      var e :| e in YearEvents(events, y) && InSeason(cfg, e) && d == EventDoc(cfg, team, awards, e);
      YearEventsMember(events, y, e);
      assert e.year in Elems(years);
    }
  }

  // ----- what the fields count -----

  /**
   * An event document's `award_{t}_count`, `event_award_{e}_{t}_count` and
   * `bb_count` fields count the event's awards of type t, its awards with
   * event type e and award type t, and its blue-banner awards.
   */
  lemma EventDocCounts(cfg: Config, team: Team, awards: seq<Award>, e: Event, awardType: nat, eventType: nat)
    ensures NumberAt(EventDoc(cfg, team, awards, e).fields, AwardName(awardType))
         == CountIf(AwardsOf(awards, e.key), OfType(awardType))
    ensures NumberAt(EventDoc(cfg, team, awards, e).fields, EventAwardName(CompositeKey(eventType, awardType)))
         == CountIf(AwardsOf(awards, e.key), OfPair(eventType, awardType))
    ensures NumberAt(EventDoc(cfg, team, awards, e).fields, BlueBannerName)
         == CountIf(AwardsOf(awards, e.key), BlueBannerAward(cfg))
  {
    var t := AwardsTally(cfg, AwardsOf(awards, e.key));
    var key := CompositeKey(eventType, awardType);
    AwardsTallyCounts(cfg, AwardsOf(awards, e.key), awardType, eventType);
    CounterAt(t, awardType, key, eventType);
    assert IsAwardName(AwardName(awardType));
    assert IsEventAwardName(EventAwardName(key));
    EventDocRead(cfg, team, awards, e, AwardName(awardType));
    EventDocRead(cfg, team, awards, e, EventAwardName(key));
    EventDocRead(cfg, team, awards, e, BlueBannerName);
  }

  /** The counter fields of a scope document whose counters are read back from `t`. */
  lemma ScopeCounts(cfg: Config, awards: seq<Award>, events: seq<Event>, t: Tally, f: Fields, awardType: nat, eventType: nat)
    requires t == SumTally(cfg, awards, events)
    requires forall n :: IsCounterName(n) ==> NumberAt(f, n) == Counter(t, n)
    ensures NumberAt(f, AwardName(awardType)) == CountIf(ScopeAwards(cfg, awards, events), OfType(awardType))
    ensures NumberAt(f, EventAwardName(CompositeKey(eventType, awardType)))
         == CountIf(ScopeAwards(cfg, awards, events), OfPair(eventType, awardType))
    ensures NumberAt(f, BlueBannerName) == CountIf(ScopeAwards(cfg, awards, events), BlueBannerAward(cfg))
    ensures NumberAt(f, DivWinName) == CountIf(ScopeAwards(cfg, awards, events), DivisionWin(cfg))
    ensures NumberAt(f, CmpWinName) == CountIf(ScopeAwards(cfg, awards, events), FinalsWin(cfg))
    ensures NumberAt(f, EventTypeName(eventType)) == CountOfType(cfg, events, eventType)
  {
    var key := CompositeKey(eventType, awardType);
    SumTallyCounts(cfg, awards, events, awardType, eventType);
    CounterAt(t, awardType, key, eventType);
    assert IsCounterName(AwardName(awardType)) by {
      assert IsAwardName(AwardName(awardType));
    }
    assert IsCounterName(EventAwardName(key)) by {
      assert IsEventAwardName(EventAwardName(key));
    }
    assert IsCounterName(EventTypeName(eventType)) by {
      assert IsEventTypeName(EventTypeName(eventType));
    }
    assert IsCounterName(BlueBannerName) && IsCounterName(DivWinName) && IsCounterName(CmpWinName);
  }

  /**
   * A year document's counter fields count the awards of the year's
   * in-season events (per award type, per event type and award type, blue
   * banners, division wins, championship wins) and the year's in-season
   * events per event type.
   */
  lemma YearDocCounts(cfg: Config, team: Team, events: seq<Event>, awards: seq<Award>, year: nat, awardType: nat, eventType: nat)
    ensures NumberAt(YearDoc(cfg, team, events, awards, year).fields, AwardName(awardType))
         == CountIf(ScopeAwards(cfg, awards, YearEvents(events, year)), OfType(awardType))
    ensures NumberAt(YearDoc(cfg, team, events, awards, year).fields, EventAwardName(CompositeKey(eventType, awardType)))
         == CountIf(ScopeAwards(cfg, awards, YearEvents(events, year)), OfPair(eventType, awardType))
    ensures NumberAt(YearDoc(cfg, team, events, awards, year).fields, BlueBannerName)
         == CountIf(ScopeAwards(cfg, awards, YearEvents(events, year)), BlueBannerAward(cfg))
    ensures NumberAt(YearDoc(cfg, team, events, awards, year).fields, DivWinName)
         == CountIf(ScopeAwards(cfg, awards, YearEvents(events, year)), DivisionWin(cfg))
    ensures NumberAt(YearDoc(cfg, team, events, awards, year).fields, CmpWinName)
         == CountIf(ScopeAwards(cfg, awards, YearEvents(events, year)), FinalsWin(cfg))
    ensures NumberAt(YearDoc(cfg, team, events, awards, year).fields, EventTypeName(eventType))
         == CountOfType(cfg, YearEvents(events, year), eventType)
  {
    var f := YearDoc(cfg, team, events, awards, year).fields;
    forall n | IsCounterName(n) ensures NumberAt(f, n) == Counter(YearTally(cfg, events, awards, year), n) {
      YearDocRead(cfg, team, events, awards, year, n);
    }
    ScopeCounts(cfg, awards, YearEvents(events, year), YearTally(cfg, events, awards, year), f, awardType, eventType);
  }

  /**
   * The overall document's counter fields count the awards of all the
   * team's in-season events and, per event type, those events.
   */
  lemma OverallDocCounts(cfg: Config, team: Team, events: seq<Event>, awards: seq<Award>, awardType: nat, eventType: nat)
    ensures NumberAt(OverallDoc(cfg, team, events, awards).fields, AwardName(awardType))
         == CountIf(ScopeAwards(cfg, awards, events), OfType(awardType))
    ensures NumberAt(OverallDoc(cfg, team, events, awards).fields, EventAwardName(CompositeKey(eventType, awardType)))
         == CountIf(ScopeAwards(cfg, awards, events), OfPair(eventType, awardType))
    ensures NumberAt(OverallDoc(cfg, team, events, awards).fields, BlueBannerName)
         == CountIf(ScopeAwards(cfg, awards, events), BlueBannerAward(cfg))
    ensures NumberAt(OverallDoc(cfg, team, events, awards).fields, DivWinName)
         == CountIf(ScopeAwards(cfg, awards, events), DivisionWin(cfg))
    ensures NumberAt(OverallDoc(cfg, team, events, awards).fields, CmpWinName)
         == CountIf(ScopeAwards(cfg, awards, events), FinalsWin(cfg))
    ensures NumberAt(OverallDoc(cfg, team, events, awards).fields, EventTypeName(eventType))
         == CountOfType(cfg, events, eventType)
  {
    var f := OverallDoc(cfg, team, events, awards).fields;
    forall n | IsCounterName(n) ensures NumberAt(f, n) == Counter(OverallTally(cfg, events, awards), n) {
      OverallDocRead(cfg, team, events, awards, n);
    }
    ScopeCounts(cfg, awards, events, OverallTally(cfg, events, awards), f, awardType, eventType);
  }
}
