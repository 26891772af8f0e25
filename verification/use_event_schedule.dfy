/** The event schedule editor: a single-day event is one date with a start
    and an end time; a multi-day event is a list of sessions from whose dates
    the start and end of the whole event are worked out. */
module EventSchedule {
  import opened Text

  datatype ScheduleSession = ScheduleSession(date: string, startTime: string, endTime: string, description: string)

  datatype EventType = SingleDay | MultiDay

  /** What the editor hands to the API; `None` is `null`. */
  datatype Schedule = Schedule(startDatetime: string, endDatetime: string, scheduleSessions: Option<seq<ScheduleSession>>)

  /** `${date}T${time}:00Z`. */
  function Stamp(date: string, time: string): string
  {
    date + "T" + time + ":00Z"
  }

  // ---------------------------------------------------------------------------
  // Bounds of a list of sessions
  // ---------------------------------------------------------------------------

  /** Some session is on `date`. */
  predicate HasDate(sessions: seq<ScheduleSession>, date: string)
  {
    exists i :: 0 <= i < |sessions| && sessions[i].date == date
  }

  /** The first of the sorted dates, `dates.sort()[0]`. */
  function EarliestDate(sessions: seq<ScheduleSession>): string
    requires sessions != []
  {
    if |sessions| == 1 then sessions[0].date
    else
      var rest := EarliestDate(sessions[1..]);
      if Before(sessions[0].date, rest) then sessions[0].date else rest
  }

  /** The last of the sorted dates, `dates[dates.length - 1]`. */
  function LatestDate(sessions: seq<ScheduleSession>): string
    requires sessions != []
  {
    if |sessions| == 1 then sessions[0].date
    else
      var rest := LatestDate(sessions[1..]);
      if Before(rest, sessions[0].date) then sessions[0].date else rest
  }

  /** The first date is a session's date, and no session's date sorts
      before it. */
  lemma {:induction false} EarliestIsFirst(sessions: seq<ScheduleSession>)
    requires sessions != []
    ensures HasDate(sessions, EarliestDate(sessions))
    ensures forall i :: 0 <= i < |sessions| ==> !Before(sessions[i].date, EarliestDate(sessions))
  {
    var h := sessions[0].date;
    if |sessions| == 1 {
      BeforeIrreflexive(h);
    } else {
      var tail := sessions[1..];
      var rest := EarliestDate(tail);
      EarliestIsFirst(tail);
      var k :| 0 <= k < |tail| && tail[k].date == rest;
      assert sessions[k + 1].date == rest;
      forall i | 0 <= i < |sessions|
        ensures !Before(sessions[i].date, EarliestDate(sessions))
      {
        if i > 0 {
          assert sessions[i] == tail[i - 1];
          if Before(h, rest) && Before(sessions[i].date, h) {
            BeforeTransitive(sessions[i].date, h, rest);
          }
        } else if Before(h, rest) {
          BeforeIrreflexive(h);
        }
      }
    }
  }

  /** The last date is a session's date, and it sorts before no session's
      date. */
  lemma {:induction false} LatestIsLast(sessions: seq<ScheduleSession>)
    requires sessions != []
    ensures HasDate(sessions, LatestDate(sessions))
    ensures forall i :: 0 <= i < |sessions| ==> !Before(LatestDate(sessions), sessions[i].date)
  {
    var h := sessions[0].date;
    if |sessions| == 1 {
      BeforeIrreflexive(h);
    } else {
      var tail := sessions[1..];
      var rest := LatestDate(tail);
      LatestIsLast(tail);
      var k :| 0 <= k < |tail| && tail[k].date == rest;
      assert sessions[k + 1].date == rest;
      forall i | 0 <= i < |sessions|
        ensures !Before(LatestDate(sessions), sessions[i].date)
      {
        if i > 0 {
          assert sessions[i] == tail[i - 1];
          if Before(rest, h) && Before(h, sessions[i].date) {
            BeforeTransitive(rest, h, sessions[i].date);
          }
        } else if Before(rest, h) {
          BeforeIrreflexive(h);
        }
      }
    }
  }

  function OnDate(date: string): ScheduleSession -> bool
  {
    (s: ScheduleSession) => s.date == date
  }

  /** `sessions.find(s => s.date === date)!`. */
  function FirstOn(sessions: seq<ScheduleSession>, date: string): (s: ScheduleSession)
    requires HasDate(sessions, date)
    ensures s in sessions && s.date == date
  {
    FindNone(sessions, OnDate(date));
    Find(sessions, OnDate(date)).value
  }

  /** The start of a multi-day event: the first date, at the start time of
      the first session on it. */
  function StartOf(sessions: seq<ScheduleSession>): string
    requires sessions != []
  {
    EarliestIsFirst(sessions);
    var d := EarliestDate(sessions);
    Stamp(d, FirstOn(sessions, d).startTime)
  }

  /** The end of a multi-day event: the last date, at the end time of the
      first session on it. */
  function EndOf(sessions: seq<ScheduleSession>): string
    requires sessions != []
  {
    LatestIsLast(sessions);
    var d := LatestDate(sessions);
    Stamp(d, FirstOn(sessions, d).endTime)
  }

  /** The session `find` gives is the first one on that date. */
  lemma FirstOnIsFirst(sessions: seq<ScheduleSession>, date: string, i: nat)
    requires i < |sessions| && sessions[i].date == date
    requires forall j :: 0 <= j < i ==> sessions[j].date != date
    ensures FirstOn(sessions, date) == sessions[i]
  {
    FindFirst(sessions, OnDate(date), i);
  }

  /** Sorting leaves one possible first date: a session date no other sorts
      before. */
  lemma EarliestDateUnique(sessions: seq<ScheduleSession>, d: string)
    requires sessions != [] && HasDate(sessions, d)
    requires forall i :: 0 <= i < |sessions| ==> !Before(sessions[i].date, d)
    ensures d == EarliestDate(sessions)
  {
    EarliestIsFirst(sessions);
    if d != EarliestDate(sessions) {
      BeforeTotal(d, EarliestDate(sessions));
    }
  }

  /** Sorting leaves one possible last date. */
  lemma LatestDateUnique(sessions: seq<ScheduleSession>, d: string)
    requires sessions != [] && HasDate(sessions, d)
    requires forall i :: 0 <= i < |sessions| ==> !Before(d, sessions[i].date)
    ensures d == LatestDate(sessions)
  {
    LatestIsLast(sessions);
    if d != LatestDate(sessions) {
      BeforeTotal(d, LatestDate(sessions));
    }
  }

  /** The first session in list order that is on date `d`. */
  predicate FirstSessionOn(sessions: seq<ScheduleSession>, i: int, d: string)
  {
    0 <= i < |sessions| && sessions[i].date == d && forall j :: 0 <= j < i ==> sessions[j].date != d
  }

  /** The start comes from the first session on the earliest date. */
  lemma StartOfSession(sessions: seq<ScheduleSession>)
    requires sessions != []
    ensures exists i :: (FirstSessionOn(sessions, i, EarliestDate(sessions))
      && StartOf(sessions) == Stamp(sessions[i].date, sessions[i].startTime)
      && forall j :: 0 <= j < |sessions| ==> !Before(sessions[j].date, sessions[i].date))
  {
    EarliestIsFirst(sessions);
    var d := EarliestDate(sessions);
    var i := FirstIndexOn(sessions, d);
    FirstOnIsFirst(sessions, d, i);
  }

  /** The end comes from the first session on the latest date. */
  lemma EndOfSession(sessions: seq<ScheduleSession>)
    requires sessions != []
    ensures exists i :: (FirstSessionOn(sessions, i, LatestDate(sessions))
      && EndOf(sessions) == Stamp(sessions[i].date, sessions[i].endTime)
      && forall j :: 0 <= j < |sessions| ==> !Before(sessions[i].date, sessions[j].date))
  {
    LatestIsLast(sessions);
    var d := LatestDate(sessions);
    var i := FirstIndexOn(sessions, d);
    FirstOnIsFirst(sessions, d, i);
  }

  /** The position of the first session on a date some session has. */
  lemma FirstIndexOn(sessions: seq<ScheduleSession>, d: string) returns (i: nat)
    requires HasDate(sessions, d)
    ensures FirstSessionOn(sessions, i, d)
  {
    var k :| 0 <= k < |sessions| && sessions[k].date == d;
    i := 0;
    while sessions[i].date != d
      invariant i <= k
      invariant forall j :: 0 <= j < i ==> sessions[j].date != d
      decreases k - i
    {
      i := i + 1;
    }
  }

  /** The end is not the latest end: of two sessions on one day, the
      first one's end time is taken whatever the second's. */
  lemma EndTakesFirstSessionOfDay(a: ScheduleSession, b: ScheduleSession)
    requires a.date == b.date
    ensures EndOf([a, b]) == Stamp(a.date, a.endTime)
  {
    var sessions := [a, b];
    LatestIsLast(sessions);
    FirstOnIsFirst(sessions, a.date, 0);
  }

  /** Adding a session on a date before every other makes it the start. */
  lemma AddEarlierSessionStarts(sessions: seq<ScheduleSession>, s: ScheduleSession)
    requires forall i :: 0 <= i < |sessions| ==> Before(s.date, sessions[i].date)
    ensures StartOf(sessions + [s]) == Stamp(s.date, s.startTime)
  {
    var all := sessions + [s];
    var n := |sessions|;
    assert all[n] == s;
    forall i | 0 <= i < |all|
      ensures !Before(all[i].date, s.date)
    {
      if i < n {
        assert all[i] == sessions[i];
        if Before(all[i].date, s.date) {
          BeforeTransitive(s.date, all[i].date, s.date);
          BeforeIrreflexive(s.date);
        }
      } else {
        BeforeIrreflexive(s.date);
      }
    }
    EarliestDateUnique(all, s.date);
    forall j | 0 <= j < n
      ensures all[j].date != s.date
    {
      assert all[j] == sessions[j];
      BeforeIrreflexive(s.date);
    }
    FirstOnIsFirst(all, s.date, n);
  }

  /** Adding a session on the first date, or later, leaves the start as it
      was: the first session on the first date is still first. */
  lemma AddLaterSessionKeepsStart(sessions: seq<ScheduleSession>, s: ScheduleSession)
    requires sessions != []
    requires !Before(s.date, EarliestDate(sessions))
    ensures StartOf(sessions + [s]) == StartOf(sessions)
  {
    var all := sessions + [s];
    var n := |sessions|;
    var d := EarliestDate(sessions);
    EarliestIsFirst(sessions);
    var k :| 0 <= k < n && sessions[k].date == d;
    assert all[k] == sessions[k];
    forall i | 0 <= i < |all|
      ensures !Before(all[i].date, d)
    {
      if i < n {
        assert all[i] == sessions[i];
      }
    }
    EarliestDateUnique(all, d);
    var i := FirstIndexOn(sessions, d);
    forall j | 0 <= j < i
      ensures all[j].date != d
    {
      assert all[j] == sessions[j];
    }
    FirstOnIsFirst(sessions, d, i);
    FirstOnIsFirst(all, d, i);
  }

  /** `sessions.filter((_, i) => i !== index)`. */
  function RemoveAt(sessions: seq<ScheduleSession>, index: int): seq<ScheduleSession>
  {
    if 0 <= index < |sessions| then sessions[..index] + sessions[index + 1..] else sessions
  }

  /** Removing keeps every session but the one at `index`, in order; an
      index outside the list removes nothing. */
  lemma RemoveAtKeepsOthers(sessions: seq<ScheduleSession>, index: int)
    ensures 0 <= index < |sessions| ==> (|RemoveAt(sessions, index)| == |sessions| - 1
      && forall k :: 0 <= k < |sessions| - 1 ==>
           RemoveAt(sessions, index)[k] == if k < index then sessions[k] else sessions[k + 1])
    ensures !(0 <= index < |sessions|) ==> RemoveAt(sessions, index) == sessions
  {
  }

  // ---------------------------------------------------------------------------
  // Date order
  // ---------------------------------------------------------------------------

  predicate AllDigits(s: string)
  {
    forall i :: 0 <= i < |s| ==> IsDigit(s[i])
  }

  /** `YYYY-MM-DD`, every field zero-padded, as a date input gives it. */
  predicate IsIsoDate(s: string)
  {
    |s| == 10 && s[4] == '-' && s[7] == '-' && AllDigits(s[..4]) && AllDigits(s[5..7]) && AllDigits(s[8..])
  }

  function Year(s: string): nat
    requires IsIsoDate(s)
  {
    DigitsValue(s[..4])
  }

  function Month(s: string): nat
    requires IsIsoDate(s)
  {
    DigitsValue(s[5..7])
  }

  function Day(s: string): nat
    requires IsIsoDate(s)
  {
    DigitsValue(s[8..])
  }

  /** Calendar order: by year, then month, then day. */
  predicate DayBefore(a: string, b: string)
    requires IsIsoDate(a) && IsIsoDate(b)
  {
    Year(a) < Year(b) || (Year(a) == Year(b) && (Month(a) < Month(b) || (Month(a) == Month(b) && Day(a) < Day(b))))
  }

  /** On zero-padded dates the string sort is the calendar order, so the
      first and last dates are the earliest and latest days. */
  lemma IsoDatesSortByDay(a: string, b: string)
    requires IsIsoDate(a) && IsIsoDate(b)
    ensures Before(a, b) <==> DayBefore(a, b)
  {
    assert a == a[..4] + ("-" + (a[5..7] + ("-" + a[8..])));
    assert b == b[..4] + ("-" + (b[5..7] + ("-" + b[8..])));
    BeforeIrreflexive("-");
    DigitsBefore(a[..4], b[..4]);
    DigitsBefore(a[5..7], b[5..7]);
    DigitsBefore(a[8..], b[8..]);
    BeforeAppend(a[..4], "-" + (a[5..7] + ("-" + a[8..])), b[..4], "-" + (b[5..7] + ("-" + b[8..])));
    BeforeAppend("-", a[5..7] + ("-" + a[8..]), "-", b[5..7] + ("-" + b[8..]));
    BeforeAppend(a[5..7], "-" + a[8..], b[5..7], "-" + b[8..]);
    BeforeAppend("-", a[8..], "-", b[8..]);
  }

  /** Without zero-padding the sort is not the calendar: 1 October sorts
      before 30 September. */
  lemma UnpaddedMonthsMisorder()
    ensures Before("2026-10-01", "2026-9-30")
  {
  }

  /** `newSessions[index] = session` on a copy of the list: a position in
      the list is replaced, the position just past the end appends, and a
      negative index only sets a property that the list's length, `map`,
      `find` and `filter` never see. */
  function Assigned(sessions: seq<ScheduleSession>, index: int, session: ScheduleSession): seq<ScheduleSession>
    requires index <= |sessions|
  {
    if index < 0 then sessions
    else if index == |sessions| then sessions + [session]
    else sessions[index := session]
  }

  /** Updating replaces only the session at `index`, in place; at the end of
      the list it is an add, and below zero it changes nothing. */
  lemma AssignedKeepsOthers(sessions: seq<ScheduleSession>, index: int, session: ScheduleSession)
    requires index <= |sessions|
    ensures 0 <= index < |sessions| ==> (|Assigned(sessions, index, session)| == |sessions|
      && Assigned(sessions, index, session)[index] == session
      && forall k :: 0 <= k < |sessions| && k != index ==> Assigned(sessions, index, session)[k] == sessions[k])
    ensures index == |sessions| ==> Assigned(sessions, index, session) == sessions + [session]
    ensures index < 0 ==> Assigned(sessions, index, session) == sessions
    ensures Assigned(sessions, index, session) != [] <==> sessions != [] || index == |sessions|
  {
  }

  // ---------------------------------------------------------------------------
  // The hook's state
  // ---------------------------------------------------------------------------

  class ScheduleEditor {
    var eventType: EventType
    var startDateTime: string
    var endDateTime: string
    var scheduleSessions: seq<ScheduleSession>

    /** The initial state: a single-day event with nothing set. */
    constructor()
      ensures eventType == SingleDay && startDateTime == "" && endDateTime == "" && scheduleSessions == []
    {
      eventType := SingleDay;
      startDateTime := "";
      endDateTime := "";
      scheduleSessions := [];
    }

    /** `setEventType`. */
    method SetEventType(t: EventType)
      modifies this
      ensures eventType == t
      ensures startDateTime == old(startDateTime) && endDateTime == old(endDateTime)
      ensures scheduleSessions == old(scheduleSessions)
    {
      eventType := t;
    }

    /** `setSingleDayEvent`: both ends on the one date, and no sessions. */
    method SetSingleDayEvent(date: string, startTime: string, endTime: string)
      modifies this
      ensures startDateTime == Stamp(date, startTime) && endDateTime == Stamp(date, endTime)
      ensures scheduleSessions == []
      ensures eventType == old(eventType)
    {
      startDateTime := Stamp(date, startTime);
      endDateTime := Stamp(date, endTime);
      scheduleSessions := [];
    }

    /** `addScheduleSession`: the session goes at the end, and the bounds
        are worked out again. */
    method AddScheduleSession(session: ScheduleSession)
      modifies this
      ensures scheduleSessions == old(scheduleSessions) + [session]
      ensures startDateTime == StartOf(scheduleSessions) && endDateTime == EndOf(scheduleSessions)
      ensures eventType == old(eventType)
    {
      var newSessions := scheduleSessions + [session];
      scheduleSessions := newSessions;
      startDateTime := StartOf(newSessions);
      endDateTime := EndOf(newSessions);
    }

    /** `updateScheduleSession`: the list after `newSessions[index] = session`;
        the bounds are worked out again when some session is left. */
    method UpdateScheduleSession(index: int, session: ScheduleSession)
      requires index <= |scheduleSessions|
      modifies this
      ensures scheduleSessions == Assigned(old(scheduleSessions), index, session)
      ensures scheduleSessions != [] ==> startDateTime == StartOf(scheduleSessions) && endDateTime == EndOf(scheduleSessions)
      ensures scheduleSessions == [] ==> startDateTime == old(startDateTime) && endDateTime == old(endDateTime)
      ensures eventType == old(eventType)
    {
      var newSessions := Assigned(scheduleSessions, index, session);
      scheduleSessions := newSessions;
      if |newSessions| > 0 {
        startDateTime := StartOf(newSessions);
        endDateTime := EndOf(newSessions);
      }
    }

    /** `removeScheduleSession`: the session at `index`, if there is one, is
        dropped; the bounds are worked out again unless no session is left,
        in which case the old bounds stay. */
    method RemoveScheduleSession(index: int)
      modifies this
      ensures scheduleSessions == RemoveAt(old(scheduleSessions), index)
      ensures scheduleSessions != [] ==> startDateTime == StartOf(scheduleSessions) && endDateTime == EndOf(scheduleSessions)
      ensures scheduleSessions == [] ==> startDateTime == old(startDateTime) && endDateTime == old(endDateTime)
      ensures eventType == old(eventType)
    {
      var newSessions := RemoveAt(scheduleSessions, index);
      scheduleSessions := newSessions;
      if |newSessions| > 0 {
        startDateTime := StartOf(newSessions);
        endDateTime := EndOf(newSessions);
      }
    }

    /** `getEventScheduleData`: the sessions are sent only for a multi-day
        event that has some. */
    function GetEventScheduleData(): (r: Schedule)
      reads this
      ensures r.startDatetime == startDateTime && r.endDatetime == endDateTime
      ensures r.scheduleSessions.Some? <==> eventType == MultiDay && scheduleSessions != []
      ensures r.scheduleSessions.Some? ==> r.scheduleSessions.value == scheduleSessions
    {
      Schedule(startDateTime, endDateTime,
        if eventType == MultiDay && |scheduleSessions| > 0 then Some(scheduleSessions) else None)
    }
  }
}
