/** `str_equals` and `get_corresponding_event` (zml/zml.py:252-280): an
    event corresponds to a meeting when its embedded fingerprint agrees with
    every field of the meeting on `str(...)`. */
module Matching {
  import opened Wrappers
  import opened Values
  import opened Events

  /** What `str_equals(d0, d1)` decides: every key of `d0` is a key of `d1`
      and the two values render alike. Keys only in `d1` play no part. */
  predicate Covers(d0: Dict, d1: Dict)
  {
    forall k :: k in d0 ==> k in d1 && Str(d0[k]) == Str(d1[k])
  }

  /** `str_equals(d0, d1)`: walks the items of `d0` and returns False at the
      first key missing from `d1` or rendered differently there. */
  method StrEquals(d0: Dict, d1: Dict) returns (b: bool)
    ensures b <==> Covers(d0, d1)
  {
    var todo := d0.Keys;
    while todo != {}
      invariant todo <= d0.Keys
      invariant forall k :: k in d0 && k !in todo ==> k in d1 && Str(d0[k]) == Str(d1[k])
      decreases todo
    {
      var k :| k in todo;
      if k !in d1 {
        return false;
      }
      if Str(d0[k]) != Str(d1[k]) {
        return false;
      }
      todo := todo - {k};
    }
    return true;
  }

  /** `event["extendedProperties"]["private"]`, when both keys are there. */
  function Fingerprint(e: Event): Option<Dict>
  {
    match e.extendedProperties
    case None => None
    case Some(props) => props.private
  }

  /** The test `get_corresponding_event` applies to one event. Note the
      argument order of the source: the meeting is the side whose every key
      must be found in the fingerprint. */
  predicate Matches(e: Event, m: Meeting)
  {
    Fingerprint(e).Some? && Covers(m, Fingerprint(e).value)
  }

  /** What `get_corresponding_event(events, meeting)` returns: the first
      event in list order whose fingerprint covers the meeting, or None. */
  function CorrespondingEvent(events: seq<Event>, m: Meeting): (r: Option<Event>)
    ensures r.Some? ==> r.value in events
  {
    if events == [] then None
    else if Matches(events[0], m) then Some(events[0])
    else CorrespondingEvent(events[1..], m)
  }

  /** The event returned is the first that matches, and None is returned
      exactly when no event matches. */
  lemma {:induction false} CorrespondingEventIsFirstMatch(events: seq<Event>, m: Meeting)
    ensures var r := CorrespondingEvent(events, m);
            (r.None? <==> forall i :: 0 <= i < |events| ==> !Matches(events[i], m)) &&
            (r.Some? ==>
               exists i :: 0 <= i < |events| && events[i] == r.value && Matches(events[i], m) &&
                           forall j :: 0 <= j < i ==> !Matches(events[j], m))
  {
    if events != [] && !Matches(events[0], m) {
      CorrespondingEventIsFirstMatch(events[1..], m);
      var r := CorrespondingEvent(events, m);
      if r.Some? {
        var i :| 0 <= i < |events| - 1 && events[1..][i] == r.value && Matches(events[1..][i], m) &&
                 forall j :: 0 <= j < i ==> !Matches(events[1..][j], m);
        assert events[i + 1] == r.value && Matches(events[i + 1], m);
        assert forall j :: 0 <= j < i + 1 ==> !Matches(events[j], m) by {
          forall j | 0 < j < i + 1
            ensures !Matches(events[j], m)
          {
            assert events[j] == events[1..][j - 1];
          }
        }
      } else {
        forall i | 0 < i < |events|
          ensures !Matches(events[i], m)
        {
          assert events[i] == events[1..][i - 1];
        }
      }
    }
  }

  /** `get_corresponding_event(events, meeting)`: walks the events, skips
      those without `extendedProperties` or without a `private` bag, and
      returns the first whose bag `str_equals` accepts for the meeting. */
  method GetCorrespondingEvent(events: seq<Event>, m: Meeting) returns (r: Option<Event>)
    ensures r == CorrespondingEvent(events, m)
  {
    var i := 0;
    while i < |events|
      invariant 0 <= i <= |events|
      invariant CorrespondingEvent(events[i..], m) == CorrespondingEvent(events, m)
    {
      var event := events[i];
      assert events[i..][0] == event && events[i..][1..] == events[i + 1..];
      if event.extendedProperties.Some? {
        var extendedProperties := event.extendedProperties.value;
        if extendedProperties.private.Some? {
          var same := StrEquals(m, extendedProperties.private.value);
          if same {
            return Some(event);
          }
        }
      }
      i := i + 1;
    }
    assert events[i..] == [];
    return None;
  }

  /** Python's `list.index(x)`: the position of the first element equal
      to `x` (it raises `ValueError` when there is none). */
  function IndexOf(s: seq<Event>, x: Event): (i: nat)
    requires x in s
    ensures i < |s| && s[i] == x && x !in s[..i]
  {
    if s[0] == x then 0
    else
      var i := 1 + IndexOf(s[1..], x);
      assert s[..i] == [s[0]] + s[1..][..i - 1];
      i
  }

  /** Python's `list.remove(x)`: deletes the first element equal to `x`. */
  function RemoveFirst(s: seq<Event>, x: Event): (r: seq<Event>)
    requires x in s
    ensures r == s[..IndexOf(s, x)] + s[IndexOf(s, x) + 1..]
    ensures |r| == |s| - 1
    ensures multiset(r) == multiset(s) - multiset{x}
  {
    var i := IndexOf(s, x);
    assert s == s[..i] + [x] + s[i + 1..];
    s[..i] + s[i + 1..]
  }

  /** `events.remove(event)` with the event `get_corresponding_event`
      returned deletes the matched position itself: an equal event earlier
      in the list would have matched first. */
  lemma RemoveRemovesMatch(events: seq<Event>, m: Meeting, e: Event)
    requires CorrespondingEvent(events, m) == Some(e)
    ensures e in events
    ensures Matches(events[IndexOf(events, e)], m)
    ensures forall j :: 0 <= j < IndexOf(events, e) ==> !Matches(events[j], m)
  {
    CorrespondingEventIsFirstMatch(events, m);
    var i :| 0 <= i < |events| && events[i] == e && Matches(events[i], m) &&
             forall j :: 0 <= j < i ==> !Matches(events[j], m);
    var k := IndexOf(events, e);
    assert k == i;
  }

  /** A dictionary covers itself: in particular the fingerprint of the event
      built for a meeting covers that meeting. */
  lemma CoversReflexive(d: Dict)
    ensures Covers(d, d)
  {
  }

  /** A copy whose values were all turned into strings still matches in
      both directions; this is why the comparison goes through `str`. */
  lemma CoversStringified(d: Dict)
    ensures Covers(d, Stringify(d)) && Covers(Stringify(d), d)
  {
  }

  /** Keys present only in the fingerprint never prevent a match, and an
      empty meeting matches every fingerprint. */
  lemma CoversIgnoresExtraKeys(d0: Dict, d1: Dict, d2: Dict)
    requires Covers(d0, d1)
    requires forall k :: k in d1 ==> k in d2 && d2[k] == d1[k]
    ensures Covers(d0, d2) && Covers(map[], d2)
  {
  }

  /** The event at position `i` is found when it matches and no event
      before it does. */
  lemma {:induction false} FirstMatchFound(events: seq<Event>, m: Meeting, i: nat)
    requires i < |events| && Matches(events[i], m)
    requires forall j :: 0 <= j < i ==> !Matches(events[j], m)
    ensures CorrespondingEvent(events, m) == Some(events[i])
  {
    if i > 0 {
      FirstMatchFound(events[1..], m, i - 1);
    }
  }

  /** Fingerprint round trip: the event built for a meeting is found again
      for that meeting, after any events that do not match it, and also when
      the calendar keeps the fingerprint's values as strings. */
  lemma FingerprintRoundTrip(m: Meeting, e: Event, before: seq<Event>, after: seq<Event>)
    requires AsCalendarEvent(m) == Ok(e)
    requires forall i :: 0 <= i < |before| ==> !Matches(before[i], m)
    ensures Fingerprint(e) == Some(m)
    ensures CorrespondingEvent([e], m) == Some(e)
    ensures CorrespondingEvent(before + [e] + after, m) == Some(e)
    ensures Matches(e.(extendedProperties := Some(ExtendedProperties(Some(Stringify(m))))), m)
  {
    AsCalendarEventFields(m);
    CoversReflexive(m);
    CoversStringified(m);
    var s := before + [e] + after;
    assert s[|before|] == e;
    assert forall j :: 0 <= j < |before| ==> s[j] == before[j];
    FirstMatchFound(s, m, |before|);
  }
}
