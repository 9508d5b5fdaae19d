/** Google Calendar events and `as_calendar_event` (zml/zml.py:205-238):
    the event built for a Zoom meeting, which embeds the whole meeting as
    its private extended properties. */
module Events {
  import opened Wrappers
  import opened Values
  import Timestamps
  import CivilTime

  /** A Zoom meeting as the Zoom API returns it, tagged with its `user`. */
  type Meeting = Dict

  datatype EventTime = EventTime(dateTime: Value, timeZone: Value)

  /** `extendedProperties`; its `private` bag is the meeting fingerprint. */
  datatype ExtendedProperties = ExtendedProperties(private: Option<Dict>)

  /** A calendar event. `id` is assigned by the calendar service (None on a
      body that has not been inserted yet); `extendedProperties` is absent
      on events that this program did not create. */
  datatype Event = Event(
    id: Option<string>,
    summary: Value,
    description: Value,
    start: EventTime,
    end: EventTime,
    location: Value,
    extendedProperties: Option<ExtendedProperties>)

  /** What `as_calendar_event` raises: `KeyError` for a missing field,
      `TypeError` for a `start_time` that is not a string or a `duration`
      that is not a number, and what `add_duration` raises. */
  datatype MappingError =
    | MissingKey(key: string)
    | NotAString(key: string)
    | NotAnInteger(key: string)
    | BadTime(error: Timestamps.TimeError)

  /** The meeting fields `as_calendar_event` reads. */
  predicate IsRequiredKey(k: string)
  {
    k == "topic" || k == "join_url" || k == "start_time" || k == "timezone" || k == "duration" || k == "user"
  }

  predicate HasRequiredKeys(m: Meeting)
  {
    "topic" in m && "join_url" in m && "start_time" in m && "timezone" in m && "duration" in m && "user" in m
  }

  /** `as_calendar_event(meeting)`. The failures are checked in the order
      Python evaluates the dictionary display: the keys `topic`, `join_url`,
      `start_time`, `timezone`, `duration`; then `add_duration` parses
      `start_time`, converts `duration` and adds; then the key `user`. What
      the result is, is stated by the lemmas below. */
  function AsCalendarEvent(m: Meeting): Result<Event, MappingError>
  {
    if "topic" !in m then Err(MissingKey("topic"))
    else if "join_url" !in m then Err(MissingKey("join_url"))
    else if "start_time" !in m then Err(MissingKey("start_time"))
    else if "timezone" !in m then Err(MissingKey("timezone"))
    else if "duration" !in m then Err(MissingKey("duration"))
    else if !m["start_time"].VStr? then Err(NotAString("start_time"))
    else if Timestamps.Parse(m["start_time"].s).None? then Err(BadTime(Timestamps.Unparsable))
    else if !m["duration"].VInt? then Err(NotAnInteger("duration"))
    else
      match Timestamps.AddDuration(m["start_time"].s, m["duration"].n)
      case Err(e) => Err(BadTime(e))
      case Ok(end) =>
        if "user" !in m then Err(MissingKey("user"))
        else
          Ok(Event(
            None,
            m["topic"],
            m["join_url"],
            EventTime(m["start_time"], m["timezone"]),
            EventTime(VStr(end), m["timezone"]),
            m["user"],
            Some(ExtendedProperties(Some(m)))))
  }

  /** The mapping succeeds exactly when the meeting has every field it
      reads, `start_time` is a string, `duration` an integer, and the end
      time can be computed. */
  lemma AsCalendarEventSucceeds(m: Meeting)
    ensures AsCalendarEvent(m).Ok? <==>
      HasRequiredKeys(m) && m["start_time"].VStr? && m["duration"].VInt? &&
      Timestamps.AddDuration(m["start_time"].s, m["duration"].n).Ok?
  {
  }

  /** The event built: topic, join URL and user become summary, description
      and location; the start keeps the meeting's own time and zone; the
      whole meeting is embedded as the private extended properties; no id
      is set before the calendar assigns one. */
  lemma AsCalendarEventFields(m: Meeting)
    requires AsCalendarEvent(m).Ok?
    ensures var e := AsCalendarEvent(m).value;
      HasRequiredKeys(m) &&
      e.id.None? &&
      e.summary == m["topic"] && e.description == m["join_url"] && e.location == m["user"] &&
      e.start == EventTime(m["start_time"], m["timezone"]) &&
      e.end.timeZone == m["timezone"] && e.end.dateTime.VStr? &&
      e.extendedProperties == Some(ExtendedProperties(Some(m)))
  {
  }

  /** The end text is what `add_duration` returns for the meeting's start
      and duration, so it is rendered in UTC with a literal `Z`, and it
      is `duration` minutes after the start. */
  lemma AsCalendarEventEnd(m: Meeting)
    requires AsCalendarEvent(m).Ok?
    ensures HasRequiredKeys(m) && m["start_time"].VStr? && m["duration"].VInt? &&
      AsCalendarEvent(m).value.end.dateTime.VStr?
    ensures var end := Timestamps.AddDuration(m["start_time"].s, m["duration"].n);
      end.Ok? && AsCalendarEvent(m).value.end.dateTime == VStr(end.value) &&
      |end.value| == 20 && end.value[19] == 'Z'
    ensures var start := Timestamps.Parse(m["start_time"].s);
      var end := Timestamps.Parse(AsCalendarEvent(m).value.end.dateTime.s);
      start.Some? && end.Some? &&
      CivilTime.Seconds(end.value) == CivilTime.Seconds(start.value) + 60 * m["duration"].n
  {
  }

  /** A `KeyError` names a field the mapping reads that the meeting lacks. */
  lemma AsCalendarEventMissingKey(m: Meeting)
    requires AsCalendarEvent(m).Err? && AsCalendarEvent(m).error.MissingKey?
    ensures IsRequiredKey(AsCalendarEvent(m).error.key) && AsCalendarEvent(m).error.key !in m
  {
  }
}
