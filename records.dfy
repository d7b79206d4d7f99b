/**
 * The records `update_team_year_index` reads. Events and awards are the
 * datastore entities returned by the team's event and award queries; the
 * team is the entity being indexed. Enum values (event types, award types)
 * are the non-negative integers the application uses for them.
 */
module Records {

  /** A latitude/longitude pair, carried into documents verbatim. */
  datatype GeoPoint = GeoPoint(lat: real, lon: real)

  datatype Option<T> = None | Some(value: T)

  /** `team.key.id()`, `team_number`, `name`, `nickname` and `normalized_location.lat_lng`. */
  datatype Team = Team(key: string, number: nat, name: string, nickname: string, location: Option<GeoPoint>)

  /** `event.key.id()`, `event.year`, `event.event_type_enum`. */
  datatype Event = Event(key: string, year: nat, eventType: nat)

  /**
   * `award.event.id()`, `award.event_type_enum` (the award's own copy of its
   * event's type) and `award.award_type_enum`.
   */
  datatype Award = Award(eventKey: string, eventType: nat, awardType: nat)

  /**
   * The application constants the rollup consults: `EventType.SEASON_EVENT_TYPES`,
   * `AwardType.BLUE_BANNER_AWARDS`, `AwardType.WINNER`, `EventType.CMP_DIVISION`
   * and `EventType.CMP_FINALS`.
   */
  datatype Config = Config(seasonTypes: set<nat>, blueBanner: set<nat>, winner: nat,
                           cmpDivision: nat, cmpFinals: nat)

  /** The filter of lines 89-91. */
  predicate InSeason(cfg: Config, e: Event)
  {
    e.eventType in cfg.seasonTypes
  }
}
