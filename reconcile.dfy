/** The reconciliation of `sync_zoom_to_google` (zml/zml.py:283-329): every
    upcoming meeting either claims the first calendar event that carries its
    fingerprint or has a new event inserted for it, and the events no
    meeting claimed are deleted. The calendar service is represented by the
    list of requests sent to it, in order. */
module Reconcile {
  import opened Wrappers
  import opened Values
  import opened Events
  import opened Matching
  import MeetingFilter

  /** A request sent to the calendar service: `events().insert(body=...)`
      or `events().delete(eventId=...)`. */
  datatype Action = Create(body: Event) | Delete(event: Event)

  /** Why a run stops early: the `TypeError` of the meeting filter, or the
      exception `as_calendar_event` raised. */
  datatype SyncFailure = StartTimeNotComparable | MappingFailed(error: MappingError)

  /** Where the loop over the meetings leaves things: the inserts sent, the
      events claimed by meetings (in claiming order), the events still
      unclaimed, and the exception that stopped the loop, if any. */
  datatype Cycle = Cycle(log: seq<Action>, matched: seq<Event>, pending: seq<Event>, failure: Option<MappingError>)

  /** The result of a run: the requests sent, in order, and the exception
      that ended it, if any. */
  datatype Outcome = Outcome(log: seq<Action>, failure: Option<SyncFailure>)

  /** How a meeting becomes the body of an insert. The program uses
      `as_calendar_event` (`Events.AsCalendarEvent`, which `Sync` passes);
      the reconciliation depends on nothing else about it, so the lemmas
      below hold for any such mapping. */
  type Mapper = Meeting -> Result<Event, MappingError>

  /** The loop over the meetings, one meeting at a time: a meeting with a
      corresponding event removes that event from the pending list; one
      without gets an insert of the body `build` makes, or stops the loop
      when `build` raises. */
  function MatchPhase(build: Mapper, meetings: seq<Meeting>, pending: seq<Event>): Cycle
  {
    if meetings == [] then Cycle([], [], pending, None)
    else
      var m := meetings[0];
      match CorrespondingEvent(pending, m)
      case Some(e) =>
        var c := MatchPhase(build, meetings[1..], RemoveFirst(pending, e));
        Cycle(c.log, [e] + c.matched, c.pending, c.failure)
      case None =>
        match build(m)
        case Err(err) => Cycle([], [], pending, Some(err))
        case Ok(body) =>
          var c := MatchPhase(build, meetings[1..], pending);
          Cycle([Create(body)] + c.log, c.matched, c.pending, c.failure)
  }

  /** The loop over the meetings splits the listed events into those the
      meetings claimed and those left pending. */
  lemma {:induction false} MatchPhasePartition(build: Mapper, meetings: seq<Meeting>, pending: seq<Event>)
    ensures var c := MatchPhase(build, meetings, pending);
            multiset(pending) == multiset(c.matched) + multiset(c.pending)
  {
    if meetings != [] {
      var r := CorrespondingEvent(pending, meetings[0]);
      if r.Some? {
        var e := r.value;
        var rest := RemoveFirst(pending, e);
        MatchPhaseClaims(build, meetings, pending, e);
        MatchPhasePartition(build, meetings[1..], rest);
        var c := MatchPhase(build, meetings[1..], rest);
        assert multiset(pending) == multiset{e} + multiset(rest);
        assert multiset([e] + c.matched) == multiset{e} + multiset(c.matched);
      } else if build(meetings[0]).Ok? {
        MatchPhaseInserts(build, meetings, pending, build(meetings[0]).value);
        MatchPhasePartition(build, meetings[1..], pending);
      } else {
        MatchPhaseStops(build, meetings, pending, build(meetings[0]).error);
      }
    }
  }

  /** Each meeting the loop goes through accounts for exactly one insert or
      one claimed event, and the loop goes through them all unless `build`
      raises. */
  lemma {:induction false} MatchPhaseCounts(build: Mapper, meetings: seq<Meeting>, pending: seq<Event>)
    ensures var c := MatchPhase(build, meetings, pending);
            |c.log| + |c.matched| <= |meetings| &&
            (c.failure.None? <==> |c.log| + |c.matched| == |meetings|)
  {
    if meetings != [] {
      var r := CorrespondingEvent(pending, meetings[0]);
      if r.Some? {
        MatchPhaseClaims(build, meetings, pending, r.value);
        MatchPhaseCounts(build, meetings[1..], RemoveFirst(pending, r.value));
      } else if build(meetings[0]).Ok? {
        MatchPhaseInserts(build, meetings, pending, build(meetings[0]).value);
        MatchPhaseCounts(build, meetings[1..], pending);
      } else {
        MatchPhaseStops(build, meetings, pending, build(meetings[0]).error);
      }
    }
  }

  /** The loop sends only inserts, each of a body `build` made for one of
      the meetings. */
  lemma {:induction false} MatchPhaseSendsInserts(build: Mapper, meetings: seq<Meeting>, pending: seq<Event>)
    ensures forall a | a in MatchPhase(build, meetings, pending).log ::
              a.Create? && exists m: Meeting :: m in meetings && build(m) == Ok(a.body)
  {
    if meetings != [] {
      assert forall x | x in meetings[1..] :: x in meetings;
      var r := CorrespondingEvent(pending, meetings[0]);
      if r.Some? {
        MatchPhaseClaims(build, meetings, pending, r.value);
        MatchPhaseSendsInserts(build, meetings[1..], RemoveFirst(pending, r.value));
      } else if build(meetings[0]).Ok? {
        MatchPhaseInserts(build, meetings, pending, build(meetings[0]).value);
        MatchPhaseSendsInserts(build, meetings[1..], pending);
      } else {
        MatchPhaseStops(build, meetings, pending, build(meetings[0]).error);
      }
    }
  }

  /** Each event the loop claims corresponds to one of the meetings. */
  lemma {:induction false} MatchPhaseClaimsMatch(build: Mapper, meetings: seq<Meeting>, pending: seq<Event>)
    ensures forall e | e in MatchPhase(build, meetings, pending).matched :: exists m: Meeting :: m in meetings && Matches(e, m)
  {
    if meetings != [] {
      assert forall x | x in meetings[1..] :: x in meetings;
      var r := CorrespondingEvent(pending, meetings[0]);
      if r.Some? {
        MatchPhaseClaims(build, meetings, pending, r.value);
        RemoveRemovesMatch(pending, meetings[0], r.value);
        MatchPhaseClaimsMatch(build, meetings[1..], RemoveFirst(pending, r.value));
      } else if build(meetings[0]).Ok? {
        MatchPhaseInserts(build, meetings, pending, build(meetings[0]).value);
        MatchPhaseClaimsMatch(build, meetings[1..], pending);
      } else {
        MatchPhaseStops(build, meetings, pending, build(meetings[0]).error);
      }
    }
  }

  /** An exception that stops the loop is the one `build` raised for one of
      the meetings. */
  lemma {:induction false} MatchPhaseFailure(build: Mapper, meetings: seq<Meeting>, pending: seq<Event>)
    ensures var c := MatchPhase(build, meetings, pending);
            c.failure.Some? ==> exists m: Meeting :: m in meetings && build(m) == Err(c.failure.value)
  {
    if meetings != [] {
      assert forall x | x in meetings[1..] :: x in meetings;
      var r := CorrespondingEvent(pending, meetings[0]);
      if r.Some? {
        MatchPhaseClaims(build, meetings, pending, r.value);
        MatchPhaseFailure(build, meetings[1..], RemoveFirst(pending, r.value));
      } else if build(meetings[0]).Ok? {
        MatchPhaseInserts(build, meetings, pending, build(meetings[0]).value);
        MatchPhaseFailure(build, meetings[1..], pending);
      } else {
        MatchPhaseStops(build, meetings, pending, build(meetings[0]).error);
      }
    }
  }

  /** The three ways one meeting moves the loop on: it claims its event,
      it has a body inserted, or `build` raises. */
  lemma MatchPhaseClaims(build: Mapper, ms: seq<Meeting>, pending: seq<Event>, e: Event)
    requires ms != [] && CorrespondingEvent(pending, ms[0]) == Some(e)
    ensures e in pending
    ensures MatchPhase(build, ms, pending) == Joined([], [e], MatchPhase(build, ms[1..], RemoveFirst(pending, e)))
  {
    var c := MatchPhase(build, ms[1..], RemoveFirst(pending, e));
    assert [] + c.log == c.log;
  }

  lemma MatchPhaseInserts(build: Mapper, ms: seq<Meeting>, pending: seq<Event>, body: Event)
    requires ms != [] && CorrespondingEvent(pending, ms[0]).None? && build(ms[0]) == Ok(body)
    ensures MatchPhase(build, ms, pending) == Joined([Create(body)], [], MatchPhase(build, ms[1..], pending))
  {
    var c := MatchPhase(build, ms[1..], pending);
    assert [] + c.matched == c.matched;
  }

  lemma MatchPhaseStops(build: Mapper, ms: seq<Meeting>, pending: seq<Event>, err: MappingError)
    requires ms != [] && CorrespondingEvent(pending, ms[0]).None? && build(ms[0]) == Err(err)
    ensures MatchPhase(build, ms, pending) == Cycle([], [], pending, Some(err))
  {
  }

  /** The steps above, at position `i` of the meetings. */
  lemma ClaimStep(build: Mapper, meetings: seq<Meeting>, i: nat, pending: seq<Event>, e: Event)
    requires i < |meetings| && CorrespondingEvent(pending, meetings[i]) == Some(e)
    ensures e in pending
    ensures MatchPhase(build, meetings[i..], pending) == Joined([], [e], MatchPhase(build, meetings[i + 1..], RemoveFirst(pending, e)))
  {
    assert meetings[i..][0] == meetings[i] && meetings[i..][1..] == meetings[i + 1..];
    MatchPhaseClaims(build, meetings[i..], pending, e);
  }

  lemma InsertStep(build: Mapper, meetings: seq<Meeting>, i: nat, pending: seq<Event>, body: Event)
    requires i < |meetings| && CorrespondingEvent(pending, meetings[i]).None? && build(meetings[i]) == Ok(body)
    ensures MatchPhase(build, meetings[i..], pending) == Joined([Create(body)], [], MatchPhase(build, meetings[i + 1..], pending))
  {
    assert meetings[i..][0] == meetings[i] && meetings[i..][1..] == meetings[i + 1..];
    MatchPhaseInserts(build, meetings[i..], pending, body);
  }

  lemma StopStep(build: Mapper, meetings: seq<Meeting>, i: nat, pending: seq<Event>, err: MappingError)
    requires i < |meetings| && CorrespondingEvent(pending, meetings[i]).None? && build(meetings[i]) == Err(err)
    ensures MatchPhase(build, meetings[i..], pending) == Cycle([], [], pending, Some(err))
  {
    assert meetings[i..][0] == meetings[i];
    MatchPhaseStops(build, meetings[i..], pending, err);
  }

  /** `c` continued after the requests `log` were sent and the events
      `matched` were claimed. */
  function Joined(log: seq<Action>, matched: seq<Event>, c: Cycle): Cycle
  {
    Cycle(log + c.log, matched + c.matched, c.pending, c.failure)
  }

  lemma JoinedJoined(log: seq<Action>, matched: seq<Event>, sent: seq<Action>, claimed: seq<Event>, c: Cycle)
    ensures Joined(log, matched, Joined(sent, claimed, c)) == Joined(log + sent, matched + claimed, c)
  {
    assert log + (sent + c.log) == (log + sent) + c.log;
    assert matched + (claimed + c.matched) == (matched + claimed) + c.matched;
  }

  /** One delete request per event, in list order. */
  function Deletes(events: seq<Event>): (r: seq<Action>)
    ensures |r| == |events|
    ensures forall i :: 0 <= i < |events| ==> r[i] == Delete(events[i])
  {
    if events == [] then [] else [Delete(events[0])] + Deletes(events[1..])
  }

  /** The two loops over filtered and sorted meetings and the listed events. */
  function Reconcile(build: Mapper, meetings: seq<Meeting>, events: seq<Event>): Outcome
  {
    var c := MatchPhase(build, meetings, events);
    match c.failure
    case Some(err) => Outcome(c.log, Some(MappingFailed(err)))
    case None => Outcome(c.log + Deletes(c.pending), None)
  }

  /** A whole run on the meetings Zoom listed and the events the calendar
      listed, with `cutoff` standing for now plus `MAX_DAYS`. */
  function Sync(zoomMeetings: seq<Meeting>, events: seq<Event>, cutoff: string): Outcome
  {
    match MeetingFilter.FilterAndSort(zoomMeetings, cutoff)
    case None => Outcome([], Some(StartTimeNotComparable))
    case Some(meetings) => Reconcile(AsCalendarEvent, meetings, events)
  }

  /** The event bodies inserted by a list of requests. */
  function Created(log: seq<Action>): seq<Event>
  {
    if log == [] then []
    else (if log[0].Create? then [log[0].body] else []) + Created(log[1..])
  }

  /** The events deleted by a list of requests. */
  function Deleted(log: seq<Action>): seq<Event>
  {
    if log == [] then []
    else (if log[0].Delete? then [log[0].event] else []) + Deleted(log[1..])
  }

  lemma {:induction false} CreatesOnly(log: seq<Action>)
    requires forall a | a in log :: a.Create?
    ensures |Created(log)| == |log| && Deleted(log) == []
  {
    if log != [] {
      CreatesOnly(log[1..]);
    }
  }

  lemma {:induction false} DeletesOnly(events: seq<Event>)
    ensures Created(Deletes(events)) == [] && Deleted(Deletes(events)) == events
  {
    if events != [] {
      var r := Deletes(events);
      assert r[1..] == Deletes(events[1..]);
      DeletesOnly(events[1..]);
    }
  }

  lemma {:induction false} CreatedDeletedAppend(a: seq<Action>, b: seq<Action>)
    ensures Created(a + b) == Created(a) + Created(b)
    ensures Deleted(a + b) == Deleted(a) + Deleted(b)
  {
    if a == [] {
      assert a + b == b;
    } else {
      assert a + b != [] && (a + b)[0] == a[0] && (a + b)[1..] == a[1..] + b;
      CreatedDeletedAppend(a[1..], b);
      var hc := if a[0].Create? then [a[0].body] else [];
      var hd := if a[0].Delete? then [a[0].event] else [];
      assert Created(a + b) == hc + Created(a[1..] + b);
      assert Deleted(a + b) == hd + Deleted(a[1..] + b);
      assert hc + Created(a[1..] + b) == (hc + Created(a[1..])) + Created(b);
      assert hd + Deleted(a[1..] + b) == (hd + Deleted(a[1..])) + Deleted(b);
    }
  }

  /** Accounting of a completed run over the filtered meetings: each
      meeting either claims an event or has one inserted, and the claimed
      events together with the deleted ones are exactly the listed events. */
  lemma ReconcileAccounting(build: Mapper, meetings: seq<Meeting>, events: seq<Event>)
    requires Reconcile(build, meetings, events).failure.None?
    ensures var o := Reconcile(build, meetings, events);
            var c := MatchPhase(build, meetings, events);
            |Created(o.log)| + |c.matched| == |meetings| &&
            multiset(Deleted(o.log)) + multiset(c.matched) == multiset(events)
  {
    var c := MatchPhase(build, meetings, events);
    MatchPhaseCounts(build, meetings, events);
    MatchPhasePartition(build, meetings, events);
    MatchPhaseSendsInserts(build, meetings, events);
    CreatesOnly(c.log);
    DeletesOnly(c.pending);
    CreatedDeletedAppend(c.log, Deletes(c.pending));
    assert Created(c.log) + [] == Created(c.log);
    assert [] + c.pending == c.pending;
  }

  /** The counts of a completed run: each claimed event stands for one
      meeting and one listed event, so inserts plus deletes number the
      meetings plus the listed events less twice the claimed events. */
  lemma ReconcileTotals(build: Mapper, meetings: seq<Meeting>, events: seq<Event>)
    requires Reconcile(build, meetings, events).failure.None?
    ensures var o := Reconcile(build, meetings, events);
            var c := MatchPhase(build, meetings, events);
            |Created(o.log)| + |Deleted(o.log)| + 2 * |c.matched| == |meetings| + |events|
  {
    ReconcileAccounting(build, meetings, events);
    var o := Reconcile(build, meetings, events);
    var c := MatchPhase(build, meetings, events);
    SplitLength(Deleted(o.log), c.matched, events);
  }

  /** Two lists whose elements together are those of a third have its length. */
  lemma SplitLength(a: seq<Event>, b: seq<Event>, whole: seq<Event>)
    requires multiset(a) + multiset(b) == multiset(whole)
    ensures |a| + |b| == |whole|
  {
    assert |multiset(a)| + |multiset(b)| == |multiset(whole)|;
  }

  /** A run that `build` stopped has deleted nothing and has
      inserted fewer events than there are meetings. */
  lemma ReconcileFailureDeletesNothing(build: Mapper, meetings: seq<Meeting>, events: seq<Event>)
    requires Reconcile(build, meetings, events).failure.Some?
    ensures var o := Reconcile(build, meetings, events);
            o.failure.value.MappingFailed? && Deleted(o.log) == [] && |Created(o.log)| < |meetings|
  {
    var c := MatchPhase(build, meetings, events);
    MatchPhaseCounts(build, meetings, events);
    MatchPhaseSendsInserts(build, meetings, events);
    CreatesOnly(c.log);
  }

  /** Every insert is sent before every delete. */
  lemma InsertsBeforeDeletes(build: Mapper, meetings: seq<Meeting>, events: seq<Event>)
    ensures var o := Reconcile(build, meetings, events);
            forall i, j :: 0 <= i < j < |o.log| && o.log[j].Create? ==> o.log[i].Create?
  {
    var c := MatchPhase(build, meetings, events);
    MatchPhaseSendsInserts(build, meetings, events);
    var d := Deletes(c.pending);
    assert forall j :: |c.log| <= j < |c.log + d| ==> (c.log + d)[j] == d[j - |c.log|];
  }

  /** Every inserted body is what `build` made for one of the meetings. */
  lemma ReconcileInsertsSound(build: Mapper, meetings: seq<Meeting>, events: seq<Event>)
    ensures forall b | b in Created(Reconcile(build, meetings, events).log) ::
              exists m: Meeting :: m in meetings && build(m) == Ok(b)
  {
    var c := MatchPhase(build, meetings, events);
    var o := Reconcile(build, meetings, events);
    MatchPhaseSendsInserts(build, meetings, events);
    assert Created(o.log) == Created(c.log) by {
      if c.failure.None? {
        DeletesOnly(c.pending);
        CreatedDeletedAppend(c.log, Deletes(c.pending));
        assert Created(c.log) + [] == Created(c.log);
      }
    }
    CreatedMembers(c.log);
  }

  /** Every deleted event is one of the listed events: the deletes are
      the events the loop over the meetings left pending. */
  lemma ReconcileDeletesListed(build: Mapper, meetings: seq<Meeting>, events: seq<Event>)
    ensures forall e | e in Deleted(Reconcile(build, meetings, events).log) :: e in events
  {
    var c := MatchPhase(build, meetings, events);
    var o := Reconcile(build, meetings, events);
    assert Deleted(c.log) == [] by {
      MatchPhaseSendsInserts(build, meetings, events);
      CreatesOnly(c.log);
    }
    if c.failure.None? {
      assert Deleted(o.log) == c.pending by {
        DeletesOnly(c.pending);
        CreatedDeletedAppend(c.log, Deletes(c.pending));
      }
      assert forall e | e in c.pending :: e in events by {
        MatchPhasePartition(build, meetings, events);
        assert forall e | e in c.pending :: e in multiset(events);
      }
    }
  }

  lemma {:induction false} CreatedMembers(log: seq<Action>)
    ensures forall b | b in Created(log) :: Create(b) in log
  {
    if log != [] {
      CreatedMembers(log[1..]);
    }
  }

  /** Over a calendar that already holds one event per meeting, in the same
      order, each meeting claims its own event and none is left over. */
  lemma {:induction false} ResyncIsQuiet(build: Mapper, meetings: seq<Meeting>, events: seq<Event>)
    requires |meetings| == |events|
    requires forall i :: 0 <= i < |events| ==> Matches(events[i], meetings[i])
    ensures MatchPhase(build, meetings, events) == Cycle([], events, [], None)
  {
    if meetings != [] {
      FirstMatchFound(events, meetings[0], 0);
      MatchPhaseClaims(build, meetings, events, events[0]);
      RemoveHead(events);
      ResyncIsQuiet(build, meetings[1..], events[1..]) by {
        forall i | 0 <= i < |events| - 1
          ensures Matches(events[1..][i], meetings[1..][i])
        {
          assert events[1..][i] == events[i + 1] && meetings[1..][i] == meetings[i + 1];
        }
      }
      var noActions: seq<Action> := [];
      assert noActions + noActions == noActions;
      assert [events[0]] + events[1..] == events;
    }
  }

  /** A second run over a calendar that already holds one event per
      meeting, in the same order, sends no request at all. */
  lemma ResyncSendsNothing(build: Mapper, meetings: seq<Meeting>, events: seq<Event>)
    requires |meetings| == |events|
    requires forall i :: 0 <= i < |events| ==> Matches(events[i], meetings[i])
    ensures Reconcile(build, meetings, events) == Outcome([], None)
  {
    ResyncIsQuiet(build, meetings, events);
    assert Deletes([]) == [];
    var noActions: seq<Action> := [];
    assert noActions + noActions == noActions;
  }

  /** Removing the head element removes exactly the head. */
  lemma RemoveHead(s: seq<Event>)
    requires s != []
    ensures RemoveFirst(s, s[0]) == s[1..]
  {
    assert IndexOf(s, s[0]) == 0;
  }

  /** On an empty calendar every meeting gets an insert, in meeting order,
      when `build` accepts them all. */
  lemma EmptyCalendar(build: Mapper, meetings: seq<Meeting>)
    requires forall i :: 0 <= i < |meetings| ==> build(meetings[i]).Ok?
    ensures var o := Reconcile(build, meetings, []);
            o.failure.None? && |o.log| == |meetings| &&
            forall i :: 0 <= i < |meetings| ==> o.log[i] == Create(build(meetings[i]).value)
  {
    var c := MatchPhase(build, meetings, []);
    assert c.failure.None? by {
      MatchPhaseFailure(build, meetings, []);
    }
    assert c.pending == [] && |c.log| == |meetings| by {
      MatchPhaseCounts(build, meetings, []);
      MatchPhasePartition(build, meetings, []);
      var noEvents: seq<Event> := [];
      assert multiset(noEvents) == multiset{};
      assert |multiset(c.matched)| == |c.matched| && |multiset(c.pending)| == |c.pending|;
    }
    EmptyCalendarInOrder(build, meetings);
    assert Deletes([]) == [] && c.log + [] == c.log;
  }

  /** On an empty calendar the inserts follow the meetings one for one: the
      `i`-th request inserts the body built for the `i`-th meeting. */
  lemma {:induction false} EmptyCalendarInOrder(build: Mapper, meetings: seq<Meeting>)
    ensures var c := MatchPhase(build, meetings, []);
            |c.log| <= |meetings| &&
            forall i :: 0 <= i < |c.log| ==> c.log[i].Create? && build(meetings[i]) == Ok(c.log[i].body)
  {
    if meetings != [] {
      var built := build(meetings[0]);
      assert CorrespondingEvent([], meetings[0]) == None;
      if built.Ok? {
        var tail := meetings[1..];
        var rest := MatchPhase(build, tail, []);
        assert MatchPhase(build, meetings, []).log == [Create(built.value)] + rest.log by {
          MatchPhaseInserts(build, meetings, [], built.value);
        }
        EmptyCalendarInOrder(build, tail);
        forall i | 0 < i < |rest.log| + 1
          ensures ([Create(built.value)] + rest.log)[i].Create? && build(meetings[i]) == Ok(([Create(built.value)] + rest.log)[i].body)
        {
          assert tail[i - 1] == meetings[i];
        }
      } else {
        MatchPhaseStops(build, meetings, [], built.error);
      }
    }
  }

  /** The run converges: once the inserted bodies are stored — under any id
      and with the fingerprint's values kept as strings, as the calendar
      keeps private extended properties — the next run over the same
      meetings sends nothing. */
  lemma StoredCalendarIsQuiet(build: Mapper, meetings: seq<Meeting>, stored: seq<Event>)
    requires |stored| == |meetings|
    requires forall i :: 0 <= i < |meetings| ==>
      build(meetings[i]).Ok? &&
      stored[i] == build(meetings[i]).value.(
        id := stored[i].id,
        extendedProperties := Some(ExtendedProperties(Some(Stringify(meetings[i])))))
    ensures Reconcile(build, meetings, stored) == Outcome([], None)
  {
    forall i | 0 <= i < |meetings|
      ensures Matches(stored[i], meetings[i])
    {
      CoversStringified(meetings[i]);
    }
    ResyncSendsNothing(build, meetings, stored);
  }

  /** Two events carrying the same meeting's fingerprint: the meeting
      claims the first and the second is deleted as a duplicate. */
  lemma DuplicateEventDeleted(build: Mapper, m: Meeting, first: Event, second: Event)
    requires Matches(first, m) && Matches(second, m)
    ensures MatchPhase(build, [m], [first, second]) == Cycle([], [first], [second], None)
    ensures Reconcile(build, [m], [first, second]) == Outcome([Delete(second)], None)
  {
    DuplicateEventClaimed(build, m, first, second);
    var noActions: seq<Action> := [];
    assert Deletes([second]) == [Delete(second)] && noActions + [Delete(second)] == [Delete(second)];
  }

  lemma DuplicateEventClaimed(build: Mapper, m: Meeting, first: Event, second: Event)
    requires Matches(first, m)
    ensures MatchPhase(build, [m], [first, second]) == Cycle([], [first], [second], None)
  {
    var events := [first, second];
    FirstMatchFound(events, m, 0);
    MatchPhaseClaims(build, [m], events, first);
    RemoveHead(events);
    assert [m][1..] == [] && events[1..] == [second];
    assert MatchPhase(build, [], [second]) == Cycle([], [], [second], None);
    var noActions: seq<Action> := [];
    assert noActions + noActions == noActions && [first] + [] == [first];
  }

  /** A run fails before sending anything exactly when a listed meeting has
      a `start_time` that is not a string. */
  lemma SyncFailsEarly(zoomMeetings: seq<Meeting>, events: seq<Event>, cutoff: string)
    ensures Sync(zoomMeetings, events, cutoff).failure == Some(StartTimeNotComparable) <==>
            exists m: Meeting :: m in zoomMeetings && MeetingFilter.HasStartTime(m) && !m["start_time"].VStr?
    ensures Sync(zoomMeetings, events, cutoff).failure == Some(StartTimeNotComparable) ==>
            Sync(zoomMeetings, events, cutoff).log == []
  {
    MeetingFilter.FilterAndSortFails(zoomMeetings, cutoff);
  }

  /** One meeting and one unrelated event: the event for the meeting is
      inserted, then the stale event is deleted. */
  lemma ReplaceStaleEvent(m: Meeting, stale: Event, body: Event)
    requires AsCalendarEvent(m) == Ok(body)
    requires !Matches(stale, m)
    ensures Reconcile(AsCalendarEvent, [m], [stale]) == Outcome([Create(body), Delete(stale)], None)
  {
    assert CorrespondingEvent([stale], m) == None;
    MatchPhaseInserts(AsCalendarEvent, [m], [stale], body);
    assert [m][1..] == [];
    var noEvents: seq<Event> := [];
    assert [Create(body)] + [] == [Create(body)] && noEvents + [] == [];
    assert Deletes([stale]) == [Delete(stale)];
  }

  /** `sync_zoom_to_google()` after the two listings: filters and sorts the
      meetings, walks them, then deletes the events no meeting claimed.
      `failure` is the exception that ended the run early, if any. */
  method SyncZoomToGoogle(zoomMeetings: seq<Meeting>, calendarEvents: seq<Event>, cutoff: string)
    returns (log: seq<Action>, failure: Option<SyncFailure>)
    ensures Outcome(log, failure) == Sync(zoomMeetings, calendarEvents, cutoff)
  {
    var meetings := MeetingFilter.FilterAndSortZoomMeetings(zoomMeetings, cutoff);
    if meetings.None? {
      return [], Some(StartTimeNotComparable);
    }
    var created, events, error := MatchMeetings(meetings.value, calendarEvents);
    if error.Some? {
      return created, Some(MappingFailed(error.value));
    }
    var deleted := DeleteEvents(events);
    return created + deleted, None;
  }

  /** The loop over the meetings of `sync_zoom_to_google`: for each meeting,
      in order, inserts the body `as_calendar_event` builds when no event
      corresponds to it, and otherwise removes the corresponding event from
      the working list, which it returns. */
  method MatchMeetings(meetings: seq<Meeting>, calendarEvents: seq<Event>)
    returns (log: seq<Action>, events: seq<Event>, error: Option<MappingError>)
    ensures var c := MatchPhase(AsCalendarEvent, meetings, calendarEvents);
            log == c.log && events == c.pending && error == c.failure
  {
    log := [];
    events := calendarEvents;
    ghost var matched: seq<Event> := [];
    ghost var whole := MatchPhase(AsCalendarEvent, meetings, calendarEvents);
    assert meetings[0..] == meetings && whole == Joined(log, matched, whole);
    var i := 0;
    while i < |meetings|
      invariant 0 <= i <= |meetings|
      invariant whole == Joined(log, matched, MatchPhase(AsCalendarEvent, meetings[i..], events))
    {
      var meeting := meetings[i];
      var event := GetCorrespondingEvent(events, meeting);
      if event.None? {
        var newEvent := AsCalendarEvent(meeting);
        if newEvent.Err? {
          assert whole.log == log && whole.pending == events && whole.failure == Some(newEvent.error) by {
            StopStep(AsCalendarEvent, meetings, i, events, newEvent.error);
            assert log + [] == log;
          }
          return log, events, Some(newEvent.error);
        }
        assert whole == Joined(log + [Create(newEvent.value)], matched, MatchPhase(AsCalendarEvent, meetings[i + 1..], events)) by {
          InsertStep(AsCalendarEvent, meetings, i, events, newEvent.value);
          JoinedJoined(log, matched, [Create(newEvent.value)], [], MatchPhase(AsCalendarEvent, meetings[i + 1..], events));
          assert matched + [] == matched;
        }
        log := log + [Create(newEvent.value)];
      } else {
        assert event.value in events && whole == Joined(log, matched + [event.value], MatchPhase(AsCalendarEvent, meetings[i + 1..], RemoveFirst(events, event.value))) by {
          ClaimStep(AsCalendarEvent, meetings, i, events, event.value);
          JoinedJoined(log, matched, [], [event.value], MatchPhase(AsCalendarEvent, meetings[i + 1..], RemoveFirst(events, event.value)));
          assert log + [] == log;
        }
        events := RemoveFirst(events, event.value);
        matched := matched + [event.value];
      }
      i := i + 1;
    }
    assert whole.log == log && whole.pending == events && whole.failure.None? by {
      assert meetings[i..] == [];
      assert log + [] == log;
    }
    return log, events, None;
  }

  /** The loop over the unclaimed events: one delete request each, in list
      order. */
  method DeleteEvents(events: seq<Event>) returns (log: seq<Action>)
    ensures log == Deletes(events)
  {
    log := [];
    var j := 0;
    while j < |events|
      invariant 0 <= j <= |events|
      invariant |log| == j && forall k :: 0 <= k < j ==> log[k] == Delete(events[k])
    {
      log := log + [Delete(events[j])];
      j := j + 1;
    }
  }
}
