# Zoom meeting list: a Dafny model of the Zoom → Google Calendar sync

`zml` copies the upcoming Zoom meetings of an organisation into a shared
Google Calendar. Each cycle lists the Zoom meetings and the calendar
events. It keeps the meetings that have a `start_time` before now plus
`MAX_DAYS`, sorted by `start_time`. Then it walks them in order. A meeting
whose fingerprint is found on some event claims that event. The
fingerprint is the whole meeting, stored under
`extendedProperties.private`. A meeting without a fingerprint match gets a
new event, built by `as_calendar_event`, inserted. Finally every event no
meeting claimed is deleted.

This project models that core and proves what it does:

- `values.dfy`, `decimal.dfy`: JSON-like dictionaries of strings and
  integers, and Python's `str(...)` of them.
- `matching.dfy`: `str_equals` and `get_corresponding_event`, the
  first-match search, and `list.remove`.
- `meeting_filter.dfy`: `filter_and_sort_zoom_meetings`. It is written as
  the append loop, the filtering comprehension and a stable sort by
  `start_time`. Strings are ordered lexicographically, as Python orders
  them.
- `civil_time.dfy`, `timestamps.dfy`: `add_duration` and
  `subtract_three_months`. Both work over a UTC date-time record with
  carries across days, months and leap years. They parse and render the
  ISO 8601 text.
- `events.dfy`: `as_calendar_event`. Its exceptions are modelled as errors,
  in the order Python raises them.
- `reconcile.dfy`: the two loops of `sync_zoom_to_google`. The calendar
  service is replaced by the ordered list of insert and delete requests
  sent to it. The loop over the meetings is the method `MatchMeetings`,
  over a mutable pending list. The loop over the leftovers is
  `DeleteEvents`. Both are proved against the functions `MatchPhase` and
  `Deletes`.

An exception ends a cycle at the point where Python raises it.

- A `start_time` that is not a string makes the comparison with the cutoff
  raise `TypeError`. Nothing is sent.
- An exception from `as_calendar_event` leaves the inserts already sent in
  place. No delete is sent.

Most reconciliation lemmas take the meeting-to-event mapping as a
parameter `build`. They hold for any mapping, including
`as_calendar_event`, which `Sync`, `SyncZoomToGoogle` and `MatchMeetings`
use.

The source writes `if not event:` after the search. An event the search
returns always carries `extendedProperties`, so it is never an empty
(falsy) dictionary. The test is therefore modelled as "no event found".

## Model

| member | source | states |
|---|---|---|
| Values.Str | zml/zml.py:278 | Python's `str` of a field value: a string renders as itself, an integer as its decimal digits (`Decimal.IntToString`) |
| Decimal.IntToString | zml/zml.py:278 | `str` of an integer: at least one character, with a leading `-` exactly for negative numbers; `IntToStringInjective` proves that different integers render differently |
| Decimal.IntToStringDigits | zml/zml.py:278 | `str(n)` is an optional `-` (exactly for negative `n`) followed by the digits of the absolute value, with no leading zero except for `0` itself, reading back as that absolute value |
| Decimal.NatToStringCanonical | zml/zml.py:278 | the decimal rendering of a natural number starts with `0` only when the number is 0, and is then exactly `"0"` |
| Values.StrOfIntegers | zml/zml.py:278 | `str` renders two integers alike exactly when they are equal, and an integer like exactly one string: its decimal digits |
| Matching.Covers | zml/zml.py:273-280 | what `str_equals` decides, stated independently of the loop: every key of the first dictionary is in the second with the same `str` rendering; no contract of its own, `StrEquals` is proved equal to it |
| Matching.Fingerprint | zml/zml.py:255-258 | `event["extendedProperties"]["private"]` when both keys are present, otherwise nothing; no contract of its own, used by `Matches` |
| Matching.Matches | zml/zml.py:255-259 | the test applied to one event: it has a fingerprint and the meeting is covered by it, with the meeting as the first argument of `str_equals`; no contract of its own, its meaning is `Covers` |
| Matching.StrEquals | zml/zml.py:273-280 | returns true exactly when every key of the first dictionary is in the second with the same `str` rendering |
| Matching.CoversIgnoresExtraKeys | zml/zml.py:273-280 | keys only in the second dictionary never prevent a match, and an empty first dictionary matches anything |
| Matching.CoversStringified | zml/zml.py:278 | a dictionary and its copy with every value turned into its string match in both directions |
| Matching.CoversReflexive | zml/zml.py:273-280 | every dictionary matches itself |
| Matching.CorrespondingEvent | zml/zml.py:252-262 | an event returned by the search is one of the listed events |
| Matching.CorrespondingEventIsFirstMatch | zml/zml.py:252-262 | the search returns None exactly when no event's fingerprint matches the meeting, and otherwise the first matching event in list order |
| Matching.GetCorrespondingEvent | zml/zml.py:252-262 | the loop, skipping events without `extendedProperties` or without `private`, returns what the search specifies |
| Matching.FirstMatchFound | zml/zml.py:252-262 | a matching event preceded only by non-matching events is the one returned |
| Matching.IndexOf | zml/zml.py:320 | `list.index`: the position of the first element equal to the argument |
| Matching.RemoveFirst | zml/zml.py:320 | `list.remove`: deletes exactly the first equal element, so the length drops by one and the multiset loses one copy |
| Matching.RemoveRemovesMatch | zml/zml.py:308-320 | `events.remove(event)` with the event just found deletes the matching position itself: no equal event sits earlier in the list |
| Matching.FingerprintRoundTrip | zml/zml.py:233-235 | the event built for a meeting embeds the meeting and is found again for it, after any non-matching events, and also once the calendar stores the fingerprint's values as strings |
| MeetingFilter.HavingStartTime | zml/zml.py:109-111 | the first loop as a function; no contract beyond its length bound, and `HavingStartTimeMembers` states what it keeps |
| MeetingFilter.StartingBefore | zml/zml.py:115 | the comprehension as a function, on meetings whose `start_time` is a string; `StartingBeforeMembers` states what it keeps |
| MeetingFilter.KeepBefore | zml/zml.py:115 | the comprehension with its `TypeError`: None when some `start_time` is not a string; no contract of its own, `FilterAndSortFails` states when it fails |
| MeetingFilter.FilterAndSort | zml/zml.py:107-119 | what the filter returns for a cutoff; no contract of its own, and its meaning is stated by `FilterAndSortContents`, `FilterAndSortIdempotent` and `FilterAndSortFails` |
| MeetingFilter.FilterAndSortZoomMeetings | zml/zml.py:107-119 | the append loop, comprehension and sort return what `FilterAndSort` specifies, including the `TypeError` case |
| MeetingFilter.FilterAndSortContents | zml/zml.py:107-117 | the result is sorted by `start_time`; for every non-empty `start_time` below the cutoff its run of meetings with that `start_time` is the input's run, in input order, and for any other non-empty `start_time` the run is empty; it holds exactly the input meetings that have a string `start_time` below the cutoff, none added, dropped, duplicated or changed: each such meeting appears exactly as many times as in the input |
| MeetingFilter.FilterAndSortIdempotent | zml/zml.py:107-117 | filtering and sorting the result again with the same cutoff returns it unchanged |
| MeetingFilter.FilterAndSortFails | zml/zml.py:115 | the filter raises exactly when some meeting has a `start_time` that is not a string |
| MeetingFilter.HavingStartTimeMembers | zml/zml.py:109-111 | the first loop keeps exactly the meetings that have a `start_time`, each exactly as many times as in the input, and no other |
| MeetingFilter.HavingStartTimeRuns | zml/zml.py:109-111 | the first loop keeps the meetings with any given non-empty `start_time` all, and in their input order |
| MeetingFilter.StartingBeforeRuns | zml/zml.py:115 | the comprehension keeps the meetings with a given `start_time` below the cutoff all, in input order, and drops those with any other `start_time` |
| MeetingFilter.StartingBeforeMembers | zml/zml.py:115 | the comprehension keeps exactly the meetings whose `start_time` is below the cutoff, each exactly as many times as in the input, and no other; this describes Python only for meetings whose `start_time` is a string, the only ones that reach it |
| MeetingFilter.SortByStartTime | zml/zml.py:117 | `sorted(..., key=itemgetter("start_time"))`: ordered by `start_time`, a permutation of its input, with equal keys in input order |
| MeetingFilter.SortSortedIsIdentity | zml/zml.py:117 | sorting an already sorted list returns it unchanged |
| MeetingFilter.LexLess | zml/zml.py:115-117 | Python's `<` on strings, used for the cutoff test and the sort key: lexicographic by code point, a proper prefix first; no contract of its own, `LexLessMeaning` states it |
| MeetingFilter.LexLessMeaning | zml/zml.py:115-117 | `a < b` holds exactly when `a` is a proper prefix of `b`, or `a` and `b` agree up to some position where `a` has the smaller code point |
| MeetingFilter.LexLessTotal | zml/zml.py:115 | string comparison orders any two different strings one way or the other |
| MeetingFilter.LexLessTransitive | zml/zml.py:115 | string comparison is transitive |
| MeetingFilter.KeepsEarlierOnly | zml/zml.py:113-117 | of a later and an earlier meeting, a cutoff between them keeps only the earlier one |
| MeetingFilter.FilterAndSortExample | zml/zml.py:113-117 | meetings on 2024-06-01 and 2024-01-01 with cutoff 2024-03-01 leave only the January meeting |
| CivilTime.AddSeconds | zml/zml.py:200 | `datetime + timedelta`: a valid date-time whose instant is exactly `n` seconds later |
| CivilTime.SecondsInjective | zml/zml.py:200 | valid date-times naming the same instant are equal, so the contract of `AddSeconds` fixes its result |
| CivilTime.AddSecondsInverse | zml/zml.py:186-200 | adding `n` seconds and then `-n` seconds restores the date-time |
| CivilTime.AddDays | zml/zml.py:186 | moving by `k` days moves the day number by `k` and keeps the time of day |
| Timestamps.Parse | zml/zml.py:197-199 | a parsed time is a valid date-time in years 1..9999; `ParseFields` and `ParseIgnoresTail` state which one |
| Timestamps.ParseFields | zml/zml.py:197-199 | a parsed time has exactly the year, month, day, hour, minute and second written in the text, read as decimal numbers, with any fraction of a second cut off and the zone not applied |
| Timestamps.ParseIgnoresTail | zml/zml.py:183-185 | the fraction and the zone designator do not change the parsed time: the same text with both replaced by `Z` parses alike, because the zone is replaced by UTC, not converted |
| Timestamps.Render | zml/zml.py:201 | `isoformat()` with `+00:00` replaced by `Z`: 20 characters ending in `Z`; `ParseRender` proves that parsing it gives the date-time back |
| Timestamps.Shift | zml/zml.py:197-201 | parse, add `n` seconds, render: fails with Unparsable exactly on unparsable text and with OutOfRange exactly when the result leaves years 1..9999; otherwise it parses back to exactly `n` seconds later |
| Timestamps.ParseRender | zml/zml.py:197-201 | parsing the rendered text of a date-time gives the date-time back |
| Timestamps.AddDuration | zml/zml.py:195-202 | fails with Unparsable exactly on unparsable text, and with OutOfRange exactly when the end leaves years 1..9999; otherwise the end is 20 characters ending in `Z`, parses back to the start plus `60 * duration` seconds, and keeps the seconds field |
| Timestamps.AddDurationExample | zml/zml.py:195-202 | 90 minutes after `2024-01-01T00:00:00Z` is `2024-01-01T01:30:00Z` |
| Timestamps.AddDurationOverflows | zml/zml.py:200 | a 10-minute meeting starting at `9999-12-31T23:59:00Z` parses, and its end raises `OverflowError` (`OutOfRange`) |
| Timestamps.SubtractThreeMonths | zml/zml.py:181-188 | fails with Unparsable exactly on unparsable text, and with OutOfRange exactly when the result leaves years 1..9999; otherwise the result ends in `Z` and parses back to 90 days earlier at the same time of day |
| Events.AsCalendarEvent | zml/zml.py:205-238 | the event built for a meeting, or the exception raised, in Python's evaluation order; no contract of its own, and its meaning is stated by `AsCalendarEventSucceeds`, `AsCalendarEventFields`, `AsCalendarEventEnd` and `AsCalendarEventMissingKey` |
| Events.AsCalendarEventSucceeds | zml/zml.py:221-236 | the mapping succeeds exactly when all six fields are present, `start_time` is a string, `duration` an integer, and the end time can be computed |
| Events.AsCalendarEventFields | zml/zml.py:221-236 | summary, description and location are topic, join URL and user; start is the meeting's start and zone; the end has the meeting's zone; the whole meeting is the private extended properties; no id is set |
| Events.AsCalendarEventEnd | zml/zml.py:228-231 | the end text is exactly what `add_duration` returns for the meeting's `start_time` and `duration`: 20 characters ending in a literal `Z`, parsing to exactly `duration` minutes after the start |
| Events.AsCalendarEventMissingKey | zml/zml.py:221-232 | a `KeyError` names a field the mapping reads that the meeting lacks |
| Reconcile.MatchPhase | zml/zml.py:306-320 | the loop over the meetings, one meeting at a time; no contract of its own, and its meaning is stated by the `MatchPhase...` lemmas below; `MatchMeetings` is proved equal to it |
| Reconcile.MatchPhasePartition | zml/zml.py:306-320 | the loop splits the listed events into those claimed and those left pending, as multisets |
| Reconcile.MatchPhaseCounts | zml/zml.py:306-320 | each meeting visited yields one insert or one claim, and every meeting is visited unless the mapping raises |
| Reconcile.MatchPhaseSendsInserts | zml/zml.py:310-316 | the loop over the meetings sends only inserts, each of the body built for one of the meetings |
| Reconcile.MatchPhaseClaimsMatch | zml/zml.py:308-320 | every claimed event's fingerprint matches one of the meetings |
| Reconcile.MatchPhaseFailure | zml/zml.py:311 | an exception that stops the loop is one the mapping raised for one of the meetings |
| Reconcile.Deletes | zml/zml.py:324-329 | one delete request per leftover event, in list order |
| Reconcile.Reconcile | zml/zml.py:305-329 | the two loops over the filtered meetings: the inserts, then one delete per unclaimed event unless the mapping raised; no contract of its own, and its meaning is stated by the `Reconcile...` lemmas and `InsertsBeforeDeletes` |
| Reconcile.ReconcileAccounting | zml/zml.py:305-329 | in a completed run, inserts plus claims number the meetings, and deleted plus claimed events are exactly the listed events, so no event is both claimed and deleted |
| Reconcile.ReconcileTotals | zml/zml.py:305-329 | in a completed run, inserts plus deletes plus twice the claims number the meetings plus the listed events |
| Reconcile.ReconcileFailureDeletesNothing | zml/zml.py:311-329 | a run the mapping stopped sends no delete and fewer inserts than there are meetings |
| Reconcile.InsertsBeforeDeletes | zml/zml.py:305-329 | every insert request comes before every delete request |
| Reconcile.ReconcileInsertsSound | zml/zml.py:310-316 | every inserted body is the one built for one of the meetings |
| Reconcile.ReconcileDeletesListed | zml/zml.py:320-329 | every deleted event is one of the listed events |
| Reconcile.ResyncIsQuiet | zml/zml.py:306-320 | over a calendar holding one matching event per meeting, in order, every event is claimed and none is left pending |
| Reconcile.ResyncSendsNothing | zml/zml.py:305-329 | such a calendar receives no request at all |
| Reconcile.StoredCalendarIsQuiet | zml/zml.py:305-329 | once the inserted bodies are stored, under any id and with string-valued fingerprints, the next run over the same meetings sends nothing |
| Reconcile.EmptyCalendar | zml/zml.py:306-316 | on an empty calendar, when every meeting maps, the run sends one insert per meeting, in meeting order, and nothing else |
| Reconcile.EmptyCalendarInOrder | zml/zml.py:306-316 | on an empty calendar the `i`-th request inserts the body built for the `i`-th meeting |
| Reconcile.DuplicateEventDeleted | zml/zml.py:306-329 | two events carrying one meeting's fingerprint: the meeting claims the first, and the second is deleted |
| Reconcile.ReplaceStaleEvent | zml/zml.py:305-329 | one meeting and one unrelated event: the meeting's event is inserted, then the stale event is deleted |
| Reconcile.SyncFailsEarly | zml/zml.py:296 | a run fails in the filter exactly when some meeting has a non-string `start_time`, and it then sends nothing |
| Reconcile.Sync | zml/zml.py:296-329 | a whole run: the filter's `TypeError` sends nothing, otherwise `Reconcile` with `as_calendar_event`; no contract of its own, and `SyncFailsEarly` and `SyncZoomToGoogle` state its meaning |
| Reconcile.SyncZoomToGoogle | zml/zml.py:296-329 | filter, loop over the meetings and loop over the leftovers send exactly the requests `Sync` specifies, and end with its failure |
| Reconcile.MatchMeetings | zml/zml.py:305-320 | the loop over the meetings, mutating the pending list with `remove`, sends the inserts, leaves the pending list and raises the exception that `MatchPhase` specifies |
| Reconcile.DeleteEvents | zml/zml.py:322-329 | the loop over the leftovers sends one delete per event, in order |

## Left out

- Zoom HTTP fetching (`get_zoom_user_list`, `get_upcoming_meetings_for_zoom_user`, `get_all_upcoming_zoom_meetings`) is network I/O. Its result is the input sequence `zoomMeetings`.
- Google authentication and credential pickling (`get_google_calendar_service`) are not modelled. Neither is the event listing (`get_all_google_events`): it is I/O, so its result is the input sequence `calendarEvents`. The listing's `timeMin`, `maxResults` and `orderBy='startTime'` parameters therefore play no part, and `subtract_three_months` is modelled on its own rather than wired into a run.
- Configuration, logging, the JSON printing helpers, `work_loop` and `main` are process plumbing.
- `datetime.utcnow()` is a clock. The filter takes the cutoff string (now plus `MAX_DAYS`, in `isoformat()` text) as the parameter `cutoff`.
- The remote `insert` and `delete` calls become `Create` and `Delete` entries of the request log. Their exceptions and the id the service assigns to an inserted event are not modelled. A `Delete` carries the whole event, so a missing `"id"` key (a `KeyError` in the source) is not modelled.
- Timestamps.Parse: accepts only `YYYY-MM-DDTHH:MM:SS`, an optional fraction and an optional `Z`, `+HH:MM` or `-HH:MM` zone, not everything `dateutil.parser.parse` reads.
- Values.Str: meeting and fingerprint values are strings or integers only. Booleans, floats, `None` and nested objects, and their `str` renderings, are not modelled.
- Dictionary key order is not modelled. `str_equals` reads each key once, whatever the order, so its result does not depend on it.
- `setup.py` is packaging metadata with no logic to model.
