/** `filter_and_sort_zoom_meetings` (zml/zml.py:97-119): keep the meetings
    that have a `start_time` earlier than the cutoff, ordered by
    `start_time` with a stable sort. */
module MeetingFilter {
  import opened Wrappers
  import opened Values
  import opened Events

  // ---------------------------------------------------------------------
  // Python's ordering of `str` values
  // ---------------------------------------------------------------------

  /** Python's `a < b` on strings: lexicographic by code point, a proper
      prefix coming first. */
  predicate LexLess(a: string, b: string)
  {
    if b == [] then false
    else if a == [] then true
    else if a[0] != b[0] then a[0] < b[0]
    else LexLess(a[1..], b[1..])
  }

  lemma {:induction false} LexLessIrreflexive(a: string)
    ensures !LexLess(a, a)
  {
    if a != [] {
      LexLessIrreflexive(a[1..]);
    }
  }

  lemma {:induction false} LexLessTransitive(a: string, b: string, c: string)
    requires LexLess(a, b) && LexLess(b, c)
    ensures LexLess(a, c)
  {
    if a != [] && a[0] == b[0] && b[0] == c[0] {
      LexLessTransitive(a[1..], b[1..], c[1..]);
    }
  }

  lemma {:induction false} LexLessTotal(a: string, b: string)
    ensures a == b || LexLess(a, b) || LexLess(b, a)
  {
    if a != [] && b != [] && a[0] == b[0] {
      LexLessTotal(a[1..], b[1..]);
      if a[1..] == b[1..] {
        assert a == [a[0]] + a[1..] && b == [b[0]] + b[1..];
      }
    }
  }

  /** `a` is a proper prefix of `b`. */
  predicate IsProperPrefix(a: string, b: string)
  {
    |a| < |b| && a == b[..|a|]
  }

  /** `a` and `b` agree before position `i` and `a` has the smaller code
      point at `i`. */
  predicate SmallerAt(a: string, b: string, i: nat)
  {
    i < |a| && i < |b| && a[..i] == b[..i] && a[i] < b[i]
  }

  /** `LexLess` is Python's string order: `a < b` exactly when `a` is a
      proper prefix of `b` or the first differing code point is smaller
      in `a`. */
  lemma {:induction false} LexLessMeaning(a: string, b: string)
    ensures LexLess(a, b) <==> IsProperPrefix(a, b) || exists i: nat :: SmallerAt(a, b, i)
  {
    if b == [] {
    } else if a == [] {
      assert a == b[..0];
    } else if a[0] != b[0] {
      if LexLess(a, b) {
        assert SmallerAt(a, b, 0);
      }
    } else {
      LexLessMeaning(a[1..], b[1..]);
      assert IsProperPrefix(a, b) <==> IsProperPrefix(a[1..], b[1..]) by {
        if |a| < |b| {
          assert a == [a[0]] + a[1..] && b[..|a|] == [b[0]] + b[1..][..|a| - 1];
        }
      }
      forall i: nat | SmallerAt(a[1..], b[1..], i) ensures SmallerAt(a, b, i + 1) {
        assert a[..i + 1] == [a[0]] + a[1..][..i] && b[..i + 1] == [b[0]] + b[1..][..i];
      }
      forall i: nat | SmallerAt(a, b, i) ensures i > 0 && SmallerAt(a[1..], b[1..], i - 1) {
        assert a[1..][..i - 1] == a[..i][1..] && b[1..][..i - 1] == b[..i][1..];
      }
    }
  }

  /** "Not later than" is transitive (what a sort by `<` relies on). */
  lemma NotLessTransitive(a: string, b: string, c: string)
    requires !LexLess(b, a) && !LexLess(c, b)
    ensures !LexLess(c, a)
  {
    LexLessTotal(a, b);
    if LexLess(a, b) && LexLess(c, a) {
      LexLessTransitive(c, a, b);
    }
  }

  lemma NotLessOfLess(a: string, b: string)
    requires LexLess(a, b)
    ensures !LexLess(b, a)
  {
    if LexLess(b, a) {
      LexLessTransitive(a, b, a);
      LexLessIrreflexive(a);
    }
  }

  // ---------------------------------------------------------------------
  // Filtering
  // ---------------------------------------------------------------------

  /** `"start_time" in meeting` (zml/zml.py:110). */
  predicate HasStartTime(m: Meeting) { "start_time" in m }

  /** The sort key `itemgetter("start_time")`; meaningful on meetings whose
      `start_time` is a string, the only ones that reach the sort. */
  function StartTime(m: Meeting): string
  {
    if "start_time" in m && m["start_time"].VStr? then m["start_time"].s else ""
  }

  /** A `start_time` that `<` can compare with the cutoff string; any other
      value makes the comparison raise `TypeError`. */
  predicate StartTimeIsString(m: Meeting) { HasStartTime(m) ==> m["start_time"].VStr? }

  /** `x["start_time"] < cutoff` (zml/zml.py:115). */
  predicate StartsBefore(m: Meeting, cutoff: string) { LexLess(StartTime(m), cutoff) }

  /** The loop that appends each meeting having a `start_time`
      (zml/zml.py:109-111), as a function of the input. */
  function HavingStartTime(s: seq<Meeting>): (r: seq<Meeting>)
    ensures |r| <= |s|
  {
    if s == [] then []
    else (if HasStartTime(s[0]) then [s[0]] else []) + HavingStartTime(s[1..])
  }

  /** `[x for x in s if x["start_time"] < cutoff]` (zml/zml.py:113-116), on
      meetings whose `start_time` is present and a string. Python raises on
      any other meeting (`KeyError`, `TypeError`); `FilterAndSort` only
      applies this function once `HavingStartTime` and `KeepBefore` have ruled
      those out, and on them the value here (where `StartTime` is `""`)
      means nothing. */
  function StartingBefore(s: seq<Meeting>, cutoff: string): (r: seq<Meeting>)
    ensures |r| <= |s|
  {
    if s == [] then []
    else (if StartsBefore(s[0], cutoff) then [s[0]] else []) + StartingBefore(s[1..], cutoff)
  }

  /** Each filter keeps exactly the elements that pass, each as often as
      it occurs, and adds nothing. */
  lemma {:induction false} HavingStartTimeMembers(s: seq<Meeting>)
    ensures forall x :: x in HavingStartTime(s) <==> x in s && HasStartTime(x)
    ensures forall x :: multiset(HavingStartTime(s))[x] == (if HasStartTime(x) then multiset(s)[x] else 0)
  {
    if s != [] {
      HavingStartTimeMembers(s[1..]);
      assert s == [s[0]] + s[1..];
    }
  }

  lemma {:induction false} StartingBeforeMembers(s: seq<Meeting>, cutoff: string)
    ensures forall x :: x in StartingBefore(s, cutoff) <==> x in s && StartsBefore(x, cutoff)
    ensures forall x :: multiset(StartingBefore(s, cutoff))[x] == (if StartsBefore(x, cutoff) then multiset(s)[x] else 0)
  {
    if s != [] {
      StartingBeforeMembers(s[1..], cutoff);
      assert s == [s[0]] + s[1..];
    }
  }

  /** Filtering keeps everything when every element passes. */
  lemma {:induction false} HavingStartTimeAll(s: seq<Meeting>)
    requires forall x :: x in s ==> HasStartTime(x)
    ensures HavingStartTime(s) == s
  {
    if s != [] {
      HavingStartTimeAll(s[1..]);
      assert s == [s[0]] + s[1..];
    }
  }

  lemma {:induction false} StartingBeforeAll(s: seq<Meeting>, cutoff: string)
    requires forall x :: x in s ==> StartsBefore(x, cutoff)
    ensures StartingBefore(s, cutoff) == s
  {
    if s != [] {
      StartingBeforeAll(s[1..], cutoff);
      assert s == [s[0]] + s[1..];
    }
  }

  /** The meetings the two filters keep, in input order. */
  function Eligible(meetings: seq<Meeting>, cutoff: string): seq<Meeting>
  {
    StartingBefore(HavingStartTime(meetings), cutoff)
  }

  // ---------------------------------------------------------------------
  // Stable sort by start_time
  // ---------------------------------------------------------------------

  /** Non-decreasing `start_time` order. */
  predicate Sorted(s: seq<Meeting>)
  {
    forall i, j :: 0 <= i < j < |s| ==> !LexLess(StartTime(s[j]), StartTime(s[i]))
  }

  /** The meetings of `s` whose `start_time` is `k`, in their order in `s`:
      a sort is stable when it keeps each of these runs as it was. */
  function WithStartTime(s: seq<Meeting>, k: string): seq<Meeting>
  {
    if s == [] then []
    else (if StartTime(s[0]) == k then [s[0]] else []) + WithStartTime(s[1..], k)
  }

  /** Inserts `x` before the first element whose `start_time` is not
      earlier than its own, so that it precedes its ties. */
  function Insert(x: Meeting, s: seq<Meeting>): (r: seq<Meeting>)
    ensures multiset(r) == multiset(s) + multiset{x}
    ensures Sorted(s) ==> Sorted(r)
    ensures forall k :: WithStartTime(r, k) == (if StartTime(x) == k then [x] else []) + WithStartTime(s, k)
  {
    if s == [] then [x]
    else if LexLess(StartTime(s[0]), StartTime(x)) then
      var rest := Insert(x, s[1..]);
      InsertAfterHead(x, s, rest);
      [s[0]] + rest
    else
      InsertAtHead(x, s);
      [x] + s
  }

  /** `x` goes in front: it is not later than the head, hence than anything. */
  lemma InsertAtHead(x: Meeting, s: seq<Meeting>)
    requires s != [] && !LexLess(StartTime(s[0]), StartTime(x))
    ensures Sorted(s) ==> Sorted([x] + s)
    ensures forall k :: WithStartTime([x] + s, k) == (if StartTime(x) == k then [x] else []) + WithStartTime(s, k)
  {
    var r := [x] + s;
    assert r[1..] == s;
    if Sorted(s) {
      forall i, j | 0 <= i < j < |r| ensures !LexLess(StartTime(r[j]), StartTime(r[i])) {
        if i == 0 {
          if j == 1 {
            LexLessIrreflexive(StartTime(s[0]));
          } else {
            assert r[j] == s[j - 1];
          }
          NotLessTransitive(StartTime(x), StartTime(s[0]), StartTime(r[j]));
        }
      }
    }
  }

  /** `x` goes after the head, which is strictly earlier than `x`. */
  lemma InsertAfterHead(x: Meeting, s: seq<Meeting>, rest: seq<Meeting>)
    requires s != [] && LexLess(StartTime(s[0]), StartTime(x))
    requires multiset(rest) == multiset(s[1..]) + multiset{x}
    requires Sorted(s[1..]) ==> Sorted(rest)
    requires forall k :: WithStartTime(rest, k) == (if StartTime(x) == k then [x] else []) + WithStartTime(s[1..], k)
    ensures multiset([s[0]] + rest) == multiset(s) + multiset{x}
    ensures Sorted(s) ==> Sorted([s[0]] + rest)
    ensures forall k :: WithStartTime([s[0]] + rest, k) == (if StartTime(x) == k then [x] else []) + WithStartTime(s, k)
  {
    assert multiset([s[0]] + rest) == multiset(s) + multiset{x} by {
      assert s == [s[0]] + s[1..];
      assert multiset(s) == multiset{s[0]} + multiset(s[1..]);
      assert multiset([s[0]] + rest) == multiset{s[0]} + multiset(rest);
    }
    assert Sorted(s) ==> Sorted([s[0]] + rest) by {
      if Sorted(s) {
        SortedTail(s);
        SortedAfterHead(x, s, rest);
      }
    }
    RunsAfterHead(x, s, rest);
  }

  lemma SortedAfterHead(x: Meeting, s: seq<Meeting>, rest: seq<Meeting>)
    requires s != [] && LexLess(StartTime(s[0]), StartTime(x))
    requires multiset(rest) == multiset(s[1..]) + multiset{x}
    requires Sorted(s) && Sorted(rest)
    ensures Sorted([s[0]] + rest)
  {
    var r := [s[0]] + rest;
    forall i, j | 0 <= i < j < |r| ensures !LexLess(StartTime(r[j]), StartTime(r[i])) {
      if i == 0 {
        assert r[j] == rest[j - 1];
        assert r[j] in multiset(rest);
        if r[j] == x {
          NotLessOfLess(StartTime(s[0]), StartTime(x));
        } else {
          assert r[j] in multiset(s[1..]);
          var n :| 0 <= n < |s[1..]| && s[1..][n] == r[j];
          assert s[n + 1] == r[j];
        }
      } else {
        assert r[i] == rest[i - 1] && r[j] == rest[j - 1];
      }
    }
  }

  lemma RunsAfterHead(x: Meeting, s: seq<Meeting>, rest: seq<Meeting>)
    requires s != [] && LexLess(StartTime(s[0]), StartTime(x))
    requires forall k :: WithStartTime(rest, k) == (if StartTime(x) == k then [x] else []) + WithStartTime(s[1..], k)
    ensures forall k :: WithStartTime([s[0]] + rest, k) == (if StartTime(x) == k then [x] else []) + WithStartTime(s, k)
  {
    forall k ensures WithStartTime([s[0]] + rest, k) == (if StartTime(x) == k then [x] else []) + WithStartTime(s, k) {
      RunAfterHead(x, s, rest, k);
    }
  }

  lemma RunAfterHead(x: Meeting, s: seq<Meeting>, rest: seq<Meeting>, k: string)
    requires s != [] && LexLess(StartTime(s[0]), StartTime(x))
    requires WithStartTime(rest, k) == (if StartTime(x) == k then [x] else []) + WithStartTime(s[1..], k)
    ensures WithStartTime([s[0]] + rest, k) == (if StartTime(x) == k then [x] else []) + WithStartTime(s, k)
  {
    LexLessIrreflexive(StartTime(s[0]));
    assert s == [s[0]] + s[1..];
    WithStartTimeCons(s[0], rest, k);
    WithStartTimeCons(s[0], s[1..], k);
    var head := if StartTime(s[0]) == k then [s[0]] else [];
    var tail := WithStartTime(s[1..], k);
    if StartTime(x) == k {
      assert head == [];
      assert [] + ([x] + tail) == [x] + tail == [x] + ([] + tail);
    } else {
      assert [] + tail == tail;
      assert [] + (head + tail) == head + tail;
    }
  }

  lemma WithStartTimeCons(h: Meeting, t: seq<Meeting>, k: string)
    ensures WithStartTime([h] + t, k) == (if StartTime(h) == k then [h] else []) + WithStartTime(t, k)
  {
    assert ([h] + t)[0] == h && ([h] + t)[1..] == t;
  }

  /** Prepending at most one element to `t` adds it to its run. */
  lemma WithStartTimeGuarded(keep: bool, h: Meeting, t: seq<Meeting>, k: string)
    ensures WithStartTime((if keep then [h] else []) + t, k) ==
      (if keep && StartTime(h) == k then [h] else []) + WithStartTime(t, k)
  {
    if keep {
      WithStartTimeCons(h, t, k);
    } else {
      assert [] + t == t;
    }
  }

  /** The first filter keeps every run of a non-empty `start_time` whole
      and in input order (meetings without one have `StartTime` `""`). */
  lemma {:induction false} HavingStartTimeRuns(s: seq<Meeting>, k: string)
    requires k != ""
    ensures WithStartTime(HavingStartTime(s), k) == WithStartTime(s, k)
  {
    if s != [] {
      HavingStartTimeRuns(s[1..], k);
      WithStartTimeGuarded(HasStartTime(s[0]), s[0], HavingStartTime(s[1..]), k);
    }
  }

  /** The comprehension keeps the run of a `start_time` below the cutoff
      whole and in input order, and drops every other run. */
  lemma {:induction false} StartingBeforeRuns(s: seq<Meeting>, cutoff: string, k: string)
    ensures WithStartTime(StartingBefore(s, cutoff), k) == (if LexLess(k, cutoff) then WithStartTime(s, k) else [])
  {
    if s != [] {
      StartingBeforeRuns(s[1..], cutoff, k);
      WithStartTimeGuarded(StartsBefore(s[0], cutoff), s[0], StartingBefore(s[1..], cutoff), k);
    }
  }

  /** `sorted(s, key=itemgetter("start_time"))`: Python's sort is stable. */
  function SortByStartTime(s: seq<Meeting>): (r: seq<Meeting>)
    ensures Sorted(r)
    ensures multiset(r) == multiset(s) && |r| == |s|
    ensures forall k :: WithStartTime(r, k) == WithStartTime(s, k)
  {
    if s == [] then []
    else
      var sortedTail := SortByStartTime(s[1..]);
      InsertKeepsRuns(s, sortedTail);
      Insert(s[0], sortedTail)
  }

  /** Inserting the head into a stable sort of the tail sorts the list. */
  lemma InsertKeepsRuns(s: seq<Meeting>, sortedTail: seq<Meeting>)
    requires s != []
    requires multiset(sortedTail) == multiset(s[1..])
    requires forall k :: WithStartTime(sortedTail, k) == WithStartTime(s[1..], k)
    ensures multiset(Insert(s[0], sortedTail)) == multiset(s)
    ensures forall k :: WithStartTime(Insert(s[0], sortedTail), k) == WithStartTime(s, k)
  {
    assert s == [s[0]] + s[1..];
  }

  /** A list already in order is left as it is. */
  lemma {:induction false} SortSortedIsIdentity(s: seq<Meeting>)
    requires Sorted(s)
    ensures SortByStartTime(s) == s
  {
    if s != [] {
      var tail := s[1..];
      SortedTail(s);
      SortSortedIsIdentity(tail);
      InsertInFront(s[0], tail);
      assert s == [s[0]] + tail;
    }
  }

  lemma SortedTail(s: seq<Meeting>)
    requires Sorted(s) && s != []
    ensures Sorted(s[1..])
    ensures |s| > 1 ==> !LexLess(StartTime(s[1..][0]), StartTime(s[0]))
  {
  }

  /** A meeting not later than the head of a list is inserted in front. */
  lemma InsertInFront(x: Meeting, s: seq<Meeting>)
    requires s != [] ==> !LexLess(StartTime(s[0]), StartTime(x))
    ensures Insert(x, s) == [x] + s
  {
  }

  // ---------------------------------------------------------------------
  // filter_and_sort_zoom_meetings
  // ---------------------------------------------------------------------

  /** The comprehension `[x for x in s if x["start_time"] < cutoff]` over
      meetings that all have a `start_time`; None stands for the `TypeError`
      that comparing a non-string `start_time` with the cutoff raises. */
  function KeepBefore(s: seq<Meeting>, cutoff: string): Option<seq<Meeting>>
  {
    if forall m | m in s :: StartTimeIsString(m) then Some(StartingBefore(s, cutoff)) else None
  }

  /** What `filter_and_sort_zoom_meetings` returns for a cutoff string
      (the text of `utcnow() + timedelta(days=max_days)`). */
  function FilterAndSort(meetings: seq<Meeting>, cutoff: string): Option<seq<Meeting>>
  {
    match KeepBefore(HavingStartTime(meetings), cutoff)
    case None => None
    case Some(kept) => Some(SortByStartTime(kept))
  }

  /** `filter_and_sort_zoom_meetings(meetings, max_days)` with the cutoff
      string given: the loop that appends the meetings having a
      `start_time`, the comprehension, and the sort. */
  method FilterAndSortZoomMeetings(meetings: seq<Meeting>, cutoff: string) returns (r: Option<seq<Meeting>>)
    ensures r == FilterAndSort(meetings, cutoff)
  {
    var syncMeetings: seq<Meeting> := [];
    var i := 0;
    while i < |meetings|
      invariant 0 <= i <= |meetings|
      invariant HavingStartTime(meetings) == syncMeetings + HavingStartTime(meetings[i..])
    {
      ghost var before := syncMeetings;
      if "start_time" in meetings[i] {
        syncMeetings := syncMeetings + [meetings[i]];
      }
      assert HavingStartTime(meetings) == syncMeetings + HavingStartTime(meetings[i + 1..]) by {
        assert meetings[i..][0] == meetings[i] && meetings[i..][1..] == meetings[i + 1..];
        var step := if HasStartTime(meetings[i]) then [meetings[i]] else [];
        assert HavingStartTime(meetings[i..]) == step + HavingStartTime(meetings[i + 1..]);
        assert syncMeetings == before + step;
        assert (before + step) + HavingStartTime(meetings[i + 1..]) == before + (step + HavingStartTime(meetings[i + 1..]));
      }
      i := i + 1;
    }
    assert syncMeetings == HavingStartTime(meetings) by {
      assert meetings[i..] == [];
      assert syncMeetings + [] == syncMeetings;
    }
    var kept := KeepBefore(syncMeetings, cutoff);
    if kept.None? {
      return None;
    }
    r := Some(SortByStartTime(kept.value));
  }

  /** The result is exactly the meetings with a `start_time` before the
      cutoff: in `start_time` order, each run of equal `start_time`s being
      that run of the input, in input order; none added, dropped or
      changed. */
  lemma FilterAndSortContents(meetings: seq<Meeting>, cutoff: string, r: seq<Meeting>)
    requires FilterAndSort(meetings, cutoff) == Some(r)
    ensures Sorted(r)
    ensures forall m: Meeting :: m in r <==> m in meetings && HasStartTime(m) && LexLess(StartTime(m), cutoff)
    ensures forall m: Meeting :: m in r ==> "start_time" in m && m["start_time"].VStr?
    ensures forall k :: WithStartTime(r, k) == WithStartTime(Eligible(meetings, cutoff), k)
    ensures forall k :: k != "" ==>
              WithStartTime(r, k) == (if LexLess(k, cutoff) then WithStartTime(meetings, k) else [])
    ensures multiset(r) == multiset(Eligible(meetings, cutoff))
    ensures forall m: Meeting :: multiset(r)[m] ==
              (if HasStartTime(m) && LexLess(StartTime(m), cutoff) then multiset(meetings)[m] else 0)
  {
    var e := Eligible(meetings, cutoff);
    assert r == SortByStartTime(e);
    HavingStartTimeMembers(meetings);
    StartingBeforeMembers(HavingStartTime(meetings), cutoff);
    forall k | k != ""
      ensures WithStartTime(r, k) == (if LexLess(k, cutoff) then WithStartTime(meetings, k) else [])
    {
      StartingBeforeRuns(HavingStartTime(meetings), cutoff, k);
      HavingStartTimeRuns(meetings, k);
    }
    forall m: Meeting ensures m in r <==> m in meetings && HasStartTime(m) && LexLess(StartTime(m), cutoff) {
      assert m in r <==> m in multiset(r);
      assert m in e <==> m in multiset(e);
    }
  }

  /** Filtering and sorting its own result changes nothing. */
  lemma FilterAndSortIdempotent(meetings: seq<Meeting>, cutoff: string, r: seq<Meeting>)
    requires FilterAndSort(meetings, cutoff) == Some(r)
    ensures FilterAndSort(r, cutoff) == Some(r)
  {
    FilterAndSortContents(meetings, cutoff, r);
    HavingStartTimeAll(r);
    StartingBeforeAll(r, cutoff);
    SortSortedIsIdentity(r);
  }

  /** The filter fails exactly when some meeting has a `start_time` that
      is not a string. */
  lemma FilterAndSortFails(meetings: seq<Meeting>, cutoff: string)
    ensures FilterAndSort(meetings, cutoff).None? <==>
            exists m: Meeting :: m in meetings && HasStartTime(m) && !m["start_time"].VStr?
  {
    HavingStartTimeMembers(meetings);
  }

  /** Two strings that agree before position `i` compare as their
      characters at `i` do. */
  lemma {:induction false} LexLessAt(a: string, b: string, i: nat)
    requires i < |a| && i < |b| && a[..i] == b[..i] && a[i] < b[i]
    ensures LexLess(a, b) && !LexLess(b, a)
  {
    if i > 0 {
      assert a[0] == a[..i][0] == b[..i][0] == b[0];
      assert a[1..][..i - 1] == a[..i][1..] == b[..i][1..] == b[1..][..i - 1];
      LexLessAt(a[1..], b[1..], i - 1);
    }
  }

  /** Of two meetings starting on 2024-01-01 and 2024-06-01, whatever
      their other fields, a cutoff of 2024-03-01 keeps the first only. */
  lemma FilterAndSortExample(a: Meeting, b: Meeting)
    requires "start_time" in a && a["start_time"] == VStr("2024-01-01T00:00:00")
    requires "start_time" in b && b["start_time"] == VStr("2024-06-01T00:00:00")
    ensures FilterAndSort([b, a], "2024-03-01T00:00:00") == Some([a])
  {
    ExampleOrder(a, b);
    KeepsEarlierOnly(a, b, "2024-03-01T00:00:00");
  }

  /** Of a later meeting and an earlier one, a cutoff between them keeps
      the earlier one only. */
  lemma KeepsEarlierOnly(a: Meeting, b: Meeting, cutoff: string)
    requires "start_time" in a && a["start_time"].VStr? && StartsBefore(a, cutoff)
    requires "start_time" in b && b["start_time"].VStr? && !StartsBefore(b, cutoff)
    ensures FilterAndSort([b, a], cutoff) == Some([a])
  {
    var s := [b, a];
    assert s[1..] == [a] && [a][1..] == [];
    assert forall m | m in s :: StartTimeIsString(m);
    assert HavingStartTime(s) == s;
    assert StartingBefore([a], cutoff) == [a];
    assert StartingBefore(s, cutoff) == [] + StartingBefore([a], cutoff);
  }

  lemma ExampleOrder(a: Meeting, b: Meeting)
    requires "start_time" in a && a["start_time"] == VStr("2024-01-01T00:00:00")
    requires "start_time" in b && b["start_time"] == VStr("2024-06-01T00:00:00")
    ensures StartsBefore(a, "2024-03-01T00:00:00") && !StartsBefore(b, "2024-03-01T00:00:00")
  {
    var january, march, june := "2024-01-01T00:00:00", "2024-03-01T00:00:00", "2024-06-01T00:00:00";
    assert january[..6] == march[..6] == june[..6] == "2024-0";
    LexLessAt(january, march, 6);
    LexLessAt(march, june, 6);
    assert StartTime(a) == january && StartTime(b) == june;
  }
}
