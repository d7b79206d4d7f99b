# Team search index rollup

This project models `SearchHelper.update_team_year_index` from
`helpers/search_helper.py`. The procedure takes one team, the team's events
and the team's awards. It then:

- groups the events by year and the awards by event;
- walks the years, then each year's in-season events, then each event's
  awards, updating sparse counters in place at three scopes (event, year,
  overall): per award type, per composite key `"{event_type}_{award_type}"`,
  per event type (year and overall scopes only), blue banners, division
  wins and championship wins;
- puts one search document per in-season event (index `teamEvent`, id
  `"{team}_{event}"`), one per year (index `teamYear`, id
  `"{team}_{year}"`) and one overall document (index `team`, id
  `"{team}"`). Each document carries the team's fields and one numeric field
  per counter, named `award_{t}_count`, `event_award_{e}_{t}_count`,
  `event_{e}_count`, `bb_count`, `divwin_count` and `cmpwin_count`.

The project has six modules, one per file:

- `Naming` (naming.dfy): decimal rendering, field names and document ids.
  It proves that every name family is injective and that the families never
  collide.
- `Records` (records.dfy): the team, event and award records. `Config`
  holds the application constants that the procedure reads:
  `SEASON_EVENT_TYPES`, `BLUE_BANNER_AWARDS`, `WINNER`, `CMP_DIVISION` and
  `CMP_FINALS`.
- `Tally` (tally.dfy): the counters of one scope and the increments one
  event or award causes. Merging two scopes with `Add` is a commutative
  monoid. Sparseness and the win-counter agreement are invariants that every
  step keeps.
- `Rollup` (rollup.dfy): the groupings and scope totals as recursive
  specification functions, with the rollup's promises stated as lemmas.
- `Documents` (documents.dfy): the documents as values. Their lemmas read
  the counters back from the fields and state the sum rules between the
  documents of the three scopes.
- `SearchHelper` (search_helper.dfy): the
  procedure itself as imperative methods with loops. The search index
  `put` calls become appends to an output sequence. Each method is proved
  against the specification functions above.

The model keeps these edge cases of the code (line numbers refer to `helpers/search_helper.py`):

- A year document is put for every year that has an event, even when all of that year's events are out of season (lines 81 and 158-160); its counters are then all zero.
- Event documents carry no `divwin_count` and no `cmpwin_count` field (lines 129-136); the win counters exist only at year and overall scope.
- The overall document of a team with no events still carries `bb_count`, `divwin_count` and `cmpwin_count`, each with value 0 (lines 162-165).

## Model

| member | source | states |
|---|---|---|
| Naming.Dec | helpers/search_helper.py:109 | the decimal rendering of a number is a non-empty string of digits with no leading zero; it is one digit long exactly when the number is below 10 |
| Naming.DecValue | helpers/search_helper.py:109 | reading the rendered digits back in base ten gives the number itself, so the rendering is exact |
| Naming.DecInjective | helpers/search_helper.py:109 | two numbers with the same rendering are equal |
| Naming.CompositeKeyInjective | helpers/search_helper.py:109 | the composite key `"{event_type}_{award_type}"` determines both the event type and the award type |
| Naming.AwardNameInjective | helpers/search_helper.py:131-133 | distinct award types get distinct `award_{t}_count` field names |
| Naming.EventAwardNameInjective | helpers/search_helper.py:134-136 | distinct composite keys get distinct `event_award_{k}_count` field names |
| Naming.EventTypeNameInjective | helpers/search_helper.py:154-156 | distinct event types get distinct `event_{e}_count` field names |
| Naming.CompositeKey | helpers/search_helper.py:109 | the composite key is the decimal event type, one `_`, then the decimal award type; its only `_` is the one between the two numbers |
| Naming.AwardName | helpers/search_helper.py:131-133 | an award field name is `award_`, the decimal award type, then `_count` |
| Naming.EventAwardName | helpers/search_helper.py:134-136 | a composite field name is `event_award_`, the composite key, then `_count` |
| Naming.EventTypeName | helpers/search_helper.py:154-156 | an event-type field name is `event_`, the decimal event type, then `_count` |
| Naming.EventDocId | helpers/search_helper.py:141 | an event document id is the team key, one `_`, then the event key |
| Naming.YearDocId | helpers/search_helper.py:160 | a year document id is the team key, one `_`, then the decimal year |
| Naming.OverallDocId | helpers/search_helper.py:178 | the overall document id is the team key itself |
| Naming.NameFamiliesDisjoint | helpers/search_helper.py:129-136 | no award, composite or event-type field name equals a name of another family or any fixed field name |
| Naming.NameKind | helpers/search_helper.py:144-156 | a field name belongs to at most one counter family, and a fixed name to none |
| Naming.HeadNamesNotCounters | helpers/search_helper.py:62-72 | the team's fields, `year` and `event_key` are never counter names |
| Naming.WinNamesNotEventCounters | helpers/search_helper.py:129-136 | `divwin_count` and `cmpwin_count` are not among the names an event document's counters use |
| Naming.EventDocIdInjective | helpers/search_helper.py:141 | for one team, distinct event keys give distinct event document ids |
| Naming.YearDocIdInjective | helpers/search_helper.py:160 | for one team, distinct years give distinct year document ids |
| Records.InSeason | helpers/search_helper.py:90-91 | an event is counted and documented only when its type is one of SEASON_EVENT_TYPES; `Rollup.SeasonFilter` and `Documents.EventDocsComplete` state the consequences |
| Tally.CountEventType | helpers/search_helper.py:94-95 | counting an event raises its type's count by one and stores that type; every other counter is unchanged |
| Tally.CountAward | helpers/search_helper.py:104-127 | counting an award raises the count of its award type and of its composite key by one, raises `bb` by one exactly when its type is a blue-banner type, and leaves the event-type counters unchanged; `Rollup.AwardsTallyCounts` pins the win counters |
| Tally.Inc | helpers/search_helper.py:94-95 | `d[k] += 1` on a defaultdict adds `k` to the keys and raises its count by one |
| Tally.IncGet | helpers/search_helper.py:104-106 | an increment leaves the count of every other key unchanged |
| Tally.MergeGet | helpers/search_helper.py:75-80 | merging two counters adds their counts key by key |
| Tally.AddComm | helpers/search_helper.py:81 | merging scopes does not depend on their order |
| Tally.AddAssoc | helpers/search_helper.py:81 | merging scopes is associative |
| Tally.AddZero | helpers/search_helper.py:75-80 | the freshly initialised scope is the unit of merging |
| Tally.CountAwardShift | helpers/search_helper.py:104-127 | counting an award in a parent scope equal to "parent before + child" gives "parent before + (child with the award counted)" |
| Tally.CountEventTypeShift | helpers/search_helper.py:94-95 | the same holds for counting an event type |
| Tally.SparseSteps | helpers/search_helper.py:75-77 | merging, counting an award and counting an event type keep every stored count at least one |
| Tally.WinsExclusive | helpers/search_helper.py:120-127 | one award raises `divwin` only as a WINNER at CMP_DIVISION, raises `cmpwin` only as a WINNER at CMP_FINALS, and never raises both |
| Tally.WinsAgreeZero | helpers/search_helper.py:78-80 | a fresh scope satisfies the win-counter invariant |
| Tally.WinsAgreeCountAward | helpers/search_helper.py:108-127 | counting an award keeps `divwin` equal to the composite count of (CMP_DIVISION, WINNER), keeps `cmpwin` equal to that of (CMP_FINALS, WINNER), and keeps their sum within the WINNER count |
| Tally.WinsAgreeAdd | helpers/search_helper.py:121-127 | merging two scopes keeps the win-counter invariant |
| Tally.WinsAgreeCountEventType | helpers/search_helper.py:94-95 | counting an event type keeps the win-counter invariant |
| Tally.SumValuesMerge | helpers/search_helper.py:94-95 | the total of a merged counter is the sum of the totals |
| Rollup.AwardsOf | helpers/search_helper.py:57-59 | every award in an event's bucket carries that event's key |
| Rollup.YearEvents | helpers/search_helper.py:53-55 | every event in a year's bucket carries that year |
| Rollup.AwardsOfExactlyOnce | helpers/search_helper.py:57-59 | each award lands in its own event's bucket as often as it occurs in the input, and in no other bucket |
| Rollup.YearEventsExactlyOnce | helpers/search_helper.py:53-55 | each event lands in its own year's bucket as often as it occurs in the input, and in no other bucket |
| Rollup.AwardsOfAbsent | helpers/search_helper.py:102 | an event with no awards reads the empty list |
| Rollup.YearEventsAbsent | helpers/search_helper.py:53-55 | a year no event falls in has no events |
| Rollup.InSeasonEvents | helpers/search_helper.py:89-91 | the kept events are input events of an in-season type |
| Rollup.SeasonFilter | helpers/search_helper.py:89-91 | dropping the out-of-season events changes no counter, even when those events have awards |
| Rollup.OverallIsSumOfYears | helpers/search_helper.py:81-127 | the overall counters equal the sum of the year counters over any duplicate-free enumeration of the events' years, so the dictionary's iteration order does not matter |
| Rollup.SumYearsIsSelection | helpers/search_helper.py:81 | summing distinct years' scopes is summing over the events of those years |
| Rollup.AwardsTally | helpers/search_helper.py:99-127 | an event scope has no event-type counters; `Rollup.AwardsTallyCounts` states what its other counters count |
| Rollup.Contribution | helpers/search_helper.py:89-127 | an out-of-season event contributes nothing; an in-season event contributes exactly one to its own event type's counter |
| Rollup.SumTally | helpers/search_helper.py:81-127 | a year or overall scope is the merge of its events' contributions in visiting order; `Rollup.SumTallyCounts` states what each counter counts |
| Rollup.CountIf | helpers/search_helper.py:104-127 | the number of awards of a list passing a test is at most the list's length |
| Rollup.CountIfAppend | helpers/search_helper.py:102 | counting over two concatenated award lists adds the two counts |
| Rollup.AwardsTallyCounts | helpers/search_helper.py:102-127 | in an event scope, `award_{t}_count` counts the awards of type t, the composite counter counts the awards with that event type and award type, `bb_count` counts the BLUE_BANNER_AWARDS awards, `divwin` the WINNER awards at CMP_DIVISION events and `cmpwin` the WINNER awards at CMP_FINALS events that are not also CMP_DIVISION |
| Rollup.CountOfType | helpers/search_helper.py:89-95 | the number of in-season events of a type is at most the number of events |
| Rollup.ContributionCounts | helpers/search_helper.py:89-127 | what one event adds to each counter is the count over its awards if it is in season and zero otherwise, and one to its own type's event counter |
| Rollup.ScopeCount | helpers/search_helper.py:81-127 | a counter that adds up under merging and that each event raises by its counted awards passing a test counts, over a whole scope, the scope's awards passing that test |
| Rollup.ScopeAwardTypeCount | helpers/search_helper.py:104-105 | a year or overall award-type counter counts the awards of that type over the scope's in-season events |
| Rollup.ScopePairCount | helpers/search_helper.py:110-111 | a year or overall composite counter counts the awards with that event type and award type over the scope's in-season events |
| Rollup.ScopeFixedCounts | helpers/search_helper.py:114-127 | a year or overall scope's `bb`, `divwin` and `cmpwin` count the blue-banner awards, the WINNER awards at CMP_DIVISION events and the WINNER awards reached by the `elif` at CMP_FINALS events, over its in-season events |
| Rollup.ScopeEventTypeCount | helpers/search_helper.py:93-95 | a year or overall event-type counter counts the scope's in-season events of that type |
| Rollup.SumTallyCounts | helpers/search_helper.py:81-127 | every counter of a year or overall scope counts what its name says, over the awards of the scope's in-season events |
| Rollup.AwardsTallyInvariants | helpers/search_helper.py:99-127 | an event scope is sparse, keeps the win-counter invariant and has no event-type counters |
| Rollup.SumTallyInvariants | helpers/search_helper.py:89-127 | every year and overall scope is sparse and keeps the win-counter invariant |
| Rollup.EventTypeTotal | helpers/search_helper.py:94-95 | a scope's event-type counts add up to the number of its in-season events |
| Rollup.EventTypeOccurs | helpers/search_helper.py:94-95 | an event type has a counter in a scope exactly when an in-season event of that type is in it |
| Rollup.AwardTypeOccurs | helpers/search_helper.py:106 | an award type has a counter in an event scope exactly when an award of that type is in it |
| Rollup.CompositeOccurs | helpers/search_helper.py:109-112 | a composite key has a counter in an event scope exactly when an award with that event type and award type is in it |
| Rollup.ScopeAwardTypesFromEvents | helpers/search_helper.py:104-106 | an award type has a counter in a year or overall scope exactly when it has one in the scope of one of its in-season events |
| Rollup.ScopeCompositesFromEvents | helpers/search_helper.py:110-112 | a composite key has a counter in a year or overall scope exactly when it has one in the scope of one of its in-season events |
| Documents.BaseFields | helpers/search_helper.py:62-72 | the shared fields are `number`, `name` and `nickname` with the team's values, plus `location` exactly when the team has a location |
| Documents.EventCounterFields | helpers/search_helper.py:129-136 | the counter fields of an event document: `bb_count`, then one field per stored award type and composite key; `Documents.EventFieldsRead` and `Documents.EventFieldsNames` read them back |
| Documents.ScopeCounterFields | helpers/search_helper.py:144-156 | the counter fields of a year or overall document: the three fixed counters, then one field per stored award type, composite key and event type; `Documents.ScopeFieldsRead` and `Documents.ScopeFixedRead` read them back |
| Documents.CounterFieldsAt | helpers/search_helper.py:131-136 | a counter's field list has a field for a key exactly when the key is stored, and that field holds the count |
| Documents.ScopeFixedRead | helpers/search_helper.py:145-147 | `bb_count`, `divwin_count` and `cmpwin_count` are always present on a year or overall document and report the scope's counts, zero included |
| Documents.ScopeFieldsRead | helpers/search_helper.py:144-156 | every counter field of a year or overall scope reports its count; in a sparse scope a family field is present exactly when its count is at least one |
| Documents.EventFieldsRead | helpers/search_helper.py:129-136 | every counter field of an event scope reports its count; `bb_count` is always present; in a sparse scope any other field is present exactly when its count is at least one |
| Documents.EventFieldsNames | helpers/search_helper.py:129-136 | an event document's counter fields are only blue-banner, award and composite counters |
| Documents.ScopeFieldsNames | helpers/search_helper.py:144-156 | a year or overall document's counter fields are only counter names |
| Documents.CounterAdd | helpers/search_helper.py:104-127 | every counter of a merged scope is the sum of the two scopes' counters |
| Documents.EventHead | helpers/search_helper.py:98 | an event document starts with the team's fields, `year` and `event_key` and nothing else |
| Documents.YearHead | helpers/search_helper.py:82 | a year document starts with the team's fields and `year` and nothing else |
| Documents.EventDoc | helpers/search_helper.py:138-142 | an event document goes to `teamEvent` under the id `{team}_{event}` |
| Documents.YearScopeDoc | helpers/search_helper.py:158-160 | a year document goes to `teamYear` under the id `{team}_{year}` |
| Documents.OverallDoc | helpers/search_helper.py:176-178 | the overall document goes to `team` under the team key |
| Documents.EventDocCounts | helpers/search_helper.py:99-136 | an event document's `award_{t}_count`, composite and `bb_count` fields count the event's awards of that type, with that event type and award type, and of a blue-banner type |
| Documents.ScopeCounts | helpers/search_helper.py:144-156 | fields that read back a year or overall scope report the counts over the scope's in-season events and awards, for every counter family and fixed counter |
| Documents.YearDocCounts | helpers/search_helper.py:81-160 | a year document's counter fields count the awards of the year's in-season events per award type, per composite key, blue banners, division wins and championship wins, and the year's in-season events per event type |
| Documents.OverallDocCounts | helpers/search_helper.py:161-178 | the overall document's counter fields count the same over all the team's in-season events |
| Documents.EventDocRead | helpers/search_helper.py:97-142 | a counter field of an event document reports the count over that event's awards; it is present exactly when it is `bb_count` or its count is at least one |
| Documents.EventDocShape | helpers/search_helper.py:97-136 | an event document holds the team's fields, its year and its key, and otherwise only event counters |
| Documents.EventDocNoWins | helpers/search_helper.py:129-136 | an event document has no `divwin_count` and no `cmpwin_count` |
| Documents.EventDocNoEventTypes | helpers/search_helper.py:129-136 | an event document has no `event_{e}_count` field |
| Documents.YearDocRead | helpers/search_helper.py:143-160 | a counter field of a year document reports the count over the year's events; it is present exactly when it is a fixed counter or its count is at least one |
| Documents.YearDocShape | helpers/search_helper.py:143-156 | a year document holds the team's fields, its year, and otherwise only counters |
| Documents.OverallDocRead | helpers/search_helper.py:161-178 | a counter field of the overall document reports the count over all the team's events |
| Documents.OverallDocShape | helpers/search_helper.py:161-174 | the overall document holds the team's fields and otherwise only counters |
| Documents.OverallDocNoYear | helpers/search_helper.py:161-174 | the overall document has no `year` field |
| Documents.ContributionRead | helpers/search_helper.py:89-118 | what an event adds to a blue-banner, award or composite counter is what its event document reports if the event is in season, and zero otherwise |
| Documents.ScopeSumOfEventDocs | helpers/search_helper.py:99-118 | each blue-banner, award and composite counter of a scope is the sum of that field over the event documents put for its events |
| Documents.YearFromEvents | helpers/search_helper.py:99-118 | a year document's blue-banner, award and composite fields are the sums of the same fields over the year's event documents |
| Documents.YearDocsSum | helpers/search_helper.py:143-160 | summing a counter field over the year documents gives that counter of the summed year scopes |
| Documents.OverallFromYears | helpers/search_helper.py:162-174 | every counter field of the overall document, including the event-type, `divwin` and `cmpwin` fields, is the sum of that field over the year documents, for any order of visiting the years |
| Documents.InIndex | helpers/search_helper.py:139-140 | the documents of one index are puts into that index |
| Documents.InIndexAppend | helpers/search_helper.py:139-140 | filtering by index distributes over appending puts |
| Documents.EventDocsIndex | helpers/search_helper.py:139-142 | the event documents of a year are all in `teamEvent` |
| Documents.YearPutsEventIndex | helpers/search_helper.py:139-142 | the `teamEvent` puts of the year loop are exactly the event documents, in visiting order |
| Documents.YearPutsYearIndex | helpers/search_helper.py:159-160 | the `teamYear` puts of the year loop are exactly one document per visited year, in visiting order |
| Documents.YearPutsTeamIndex | helpers/search_helper.py:159-160 | the year loop puts nothing into `team` |
| Documents.YearPutsLength | helpers/search_helper.py:81-160 | the year loop puts one document per visited year besides the event documents |
| Documents.PutsByIndex | helpers/search_helper.py:177-178 | a run's puts split by index into the event documents, the year documents in visiting order, and the overall document; the overall document is put last, and it is the only document in `team`, also when there are no events |
| Documents.EventDocsLength | helpers/search_helper.py:89-91 | a list of events gets one event document per in-season event |
| Documents.EventPutsCount | helpers/search_helper.py:94-95 | the number of event documents put equals the total of the summed year scopes' event-type counts |
| Documents.EventPutsTotal | helpers/search_helper.py:89-142 | when every year is visited once, one event document is put per in-season event |
| Documents.YearEventsMember | helpers/search_helper.py:53-55 | an event is in a year's bucket exactly when it is an input event of that year |
| Documents.EventDocsComplete | helpers/search_helper.py:89-142 | every in-season event of a list has its document among the list's event documents, even when it has no awards |
| Documents.EventDocsSound | helpers/search_helper.py:89-142 | every event document of a list belongs to an in-season event of the list |
| Documents.EventPutsComplete | helpers/search_helper.py:81-142 | every in-season event of a visited year has its document put |
| Documents.EventPutsSound | helpers/search_helper.py:81-142 | every event document put belongs to an in-season event of a visited year |
| SearchHelper.GroupEventsByYear | helpers/search_helper.py:53-55 | the method builds `events_by_year`: its keys are the events' years, each year maps to that year's events in input order, and the returned key order lists each year exactly once |
| SearchHelper.GroupAwardsByEvent | helpers/search_helper.py:57-59 | the method builds `awards_by_event`: its keys are the awards' event keys, each mapping to that event's awards in input order |
| SearchHelper.CountEventAwards | helpers/search_helper.py:99-127 | the award loop leaves the event scope equal to the counters of the event's awards and adds exactly those counters to the year and overall scopes |
| SearchHelper.IndexEvent | helpers/search_helper.py:93-142 | for one in-season event, the method returns the event's document and adds the event's contribution to the year and overall scopes |
| SearchHelper.IndexYear | helpers/search_helper.py:82-160 | for one year, the method returns the documents of the year's in-season events followed by the year's document, and adds the year's counters to the overall scope |
| SearchHelper.IndexYears | helpers/search_helper.py:81-160 | the year loop's puts are the year-by-year puts in the visiting order, and the overall scope is the sum of the visited years' scopes |
| SearchHelper.UpdateTeamYearIndex | helpers/search_helper.py:49-178 | the years are visited once each, and the puts are the event and year documents in that order followed by the overall document built from all in-season events |

## Left out

- The event and team location index helpers (helpers/search_helper.py:17-46) are not part of this model. They are thin wrappers around index `put` and `delete` with floating-point coordinates.
- The asynchronous award and event queries (helpers/search_helper.py:50-51, 54, 58) are I/O. The two lists are inputs to `SearchHelper.UpdateTeamYearIndex`.
- The search service (`search.Index(...).put`, `search.Document` and the field constructors) is foreign code. A put is an append of `Documents.Document(index, docId, fields)` to the returned `puts` sequence.
- The application constants (`EventType.SEASON_EVENT_TYPES`, `AwardType.BLUE_BANNER_AWARDS`, `AwardType.WINNER`, `EventType.CMP_DIVISION`, `EventType.CMP_FINALS`) are defined in files that are not part of this model. They are the fields of a `Records.Config` parameter. The model handles any choice of values, including CMP_FINALS equal to CMP_DIVISION, where the `elif` of line 125 never fires.
- SearchHelper.UpdateTeamYearIndex: the order in which `events_by_year.items()` yields the years is not fixed by the program. The method returns the visiting order it used and promises only that it lists every year of an event exactly once. The puts are stated for that order, and `Rollup.OverallIsSumOfYears` shows that the overall counters do not depend on it.
- Documents.EventDoc, Documents.YearScopeDoc and Documents.OverallDoc model a field list as a map from field name to value. The order of fields, which comes from dictionary iteration in the comprehensions of lines 131-136, 148-156 and 166-174, is not modelled. The `Naming` lemmas show that no two fields share a name, so the map loses nothing else.
- A team location is carried into documents verbatim as a `GeoPoint` of two real coordinates. The model does no floating-point arithmetic.
- Enum values, years and team numbers are non-negative integers (`nat`). Python integers do not wrap, so no width is modelled.
- A team name or nickname of `None` is modelled only as some string.
- Failures are not modelled. An exception raised by `get_result` (lines 54 and 58), by `search.Document` or by a `put` (lines 139-142, 159-160 and 177-178) ends the procedure and leaves the earlier puts in place. The model assumes that both fetches return and that every put succeeds.
