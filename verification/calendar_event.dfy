/** The calendar event as the program receives it from the calendar API,
    restricted to the fields the join logic reads. */
module CalendarEvent {
  import opened Optional

  /** One way to join a meeting, from `conferenceData.entryPoints`. Both
      keys may be missing from the API record. */
  datatype EntryPoint = EntryPoint(entryPointType: Option<string>, uri: Option<string>)

  /** The `conferenceData` object. A missing `entryPoints` key reads as the
      empty list, so it is represented by the empty sequence. */
  datatype ConferenceData = ConferenceData(entryPoints: seq<EntryPoint>)

  /** The `start` object: a timed event carries `dateTime`, an all-day
      event carries `date` (and no `dateTime`). */
  datatype StartField = StartField(dateTime: Option<string>, date: Option<string>)

  /** A calendar event. `summary` is left out: it is only printed. A missing
      `description` key reads as the empty string. */
  datatype Event = Event(
    id: string,
    conferenceData: Option<ConferenceData>,
    description: string,
    start: StartField)

  /** The start text the loop inspects: `dateTime` when present, otherwise
      `date`, otherwise nothing. */
  function StartText(s: StartField): Option<string>
  {
    match s.dateTime
    case Some(t) => Some(t)
    case None => s.date
  }

  /** The result of one request for today's events: the item list, the
      `HttpError` the client library raised, or any other exception out of the
      request (a transport error, a time-out, a failed token refresh). */
  datatype FetchOutcome =
    | Fetched(items: seq<Event>)
    | HttpFailure(message: string)
    | OtherFailure(message: string)

  /** What the fetch step hands to the loop: an `HttpError` is caught and
      degrades to an empty list for that tick; any other exception is not
      caught, so no list is returned at all. */
  function TodayEvents(f: FetchOutcome): Option<seq<Event>>
  {
    match f
    case Fetched(items) => Some(items)
    case HttpFailure(_) => Some([])
    case OtherFailure(_) => None
  }
}
