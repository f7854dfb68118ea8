/**
  The month-view calendar widget: the displayed date, the table of events
  keyed by date string, and the handlers that draw the grid, open the event
  popup, move between months and years, and add an event from the form.
  The page's elements are not modelled: the grid is the list of cells it
  would show, the popup the title and lines it would show, and "today" is
  passed in instead of read from the clock.
*/
module Widget {
  import opened DateMath
  import opened Text

  datatype Event = Event(name: string, desc: string)

  /** A grid cell: a blank before day 1, or a day with its key and its
      "current-day" and "has-event" marks. */
  datatype Cell = Blank | Day(day: int, key: string, isToday: bool, hasEvent: bool)

  datatype Popup = Popup(title: string, items: seq<string>)

  datatype Option<T> = None | Some(value: T)

  const MonthNames: seq<string> := [
    "January", "February", "March", "April", "May", "June",
    "July", "August", "September", "October", "November", "December"
  ]

  const NoEvents: string := "No events added yet."

  /** The events stored under key, oldest first; none when the key is absent. */
  function EventsAt(events: map<string, seq<Event>>, key: string): seq<Event> {
    if key in events then events[key] else []
  }

  /**
    The table after pushing e onto the list under key, the list being created first when
    key is absent: e goes last under key, and every other entry is as before.
  */
  function AddEvent(events: map<string, seq<Event>>, key: string, e: Event): (r: map<string, seq<Event>>)
    ensures r.Keys == events.Keys + {key}
    ensures |r[key]| == |EventsAt(events, key)| + 1 && r[key][|r[key]| - 1] == e
    ensures r[key][..|r[key]| - 1] == EventsAt(events, key)
    ensures forall k :: k in events && k != key ==> r[k] == events[k]
  {
    var list := EventsAt(events, key) + [e];
    assert list[..|list| - 1] == EventsAt(events, key);
    events[key := list]
  }

  /** One line of the popup. */
  function EventLine(e: Event): string {
    e.name + ": " + e.desc
  }

  /** The form's check: a date string was given (it is not trimmed), and name
      and description are not blank once trimmed. */
  predicate Accepts(date: string, name: string, desc: string) {
    date != "" && Trim(name) != "" && Trim(desc) != ""
  }

  /** An entry is accepted exactly when the date is non-empty and both name
      and description hold a character that is not white space. */
  lemma AcceptsIff(date: string, name: string, desc: string)
    ensures Accepts(date, name, desc) <==>
      date != ""
      && (exists i :: 0 <= i < |name| && !IsJsSpace(name[i]))
      && (exists i :: 0 <= i < |desc| && !IsJsSpace(desc[i]))
  {
    TrimEmptyIff(name);
    TrimEmptyIff(desc);
  }

  /** The cell of day d of a month: keyed `${year}-${month + 1}-${d}`, marked
      current exactly on today's date and marked as having events exactly
      when the table holds its key. */
  function DayCell(year: int, month: int, d: int, today: Date, events: map<string, seq<Event>>): Cell
    requires 0 <= month && 1 <= d
  {
    var key := DateKey(year, month + 1, d);
    Day(d, key, today == Date(year, month, d), key in events)
  }

  /** The day cell spelled with the field-by-field "today" test. */
  lemma DayCellOf(year: int, month: int, d: int, today: Date, events: map<string, seq<Event>>)
    requires 0 <= month && 1 <= d
    ensures var key := DateKey(year, month + 1, d);
      DayCell(year, month, d, today, events)
      == Day(d, key, d == today.day && month == today.month && year == today.year, key in events)
  {
  }

  /**
    A month drawn with `lead` blanks and `length` days: the blanks first,
    then one cell per day 1..length in order.
  */
  ghost predicate Drawn(cells: seq<Cell>, lead: nat, length: nat, year: int, month: int, today: Date,
                        events: map<string, seq<Event>>)
    requires 0 <= month
  {
    |cells| == lead + length
    && (forall i :: 0 <= i < lead ==> cells[i] == Blank)
    && (forall i :: lead <= i < |cells| ==> cells[i] == DayCell(year, month, i - lead + 1, today, events))
  }

  /**
    What renderCalendar draws for month `month` of `year`: as many blanks as
    the weekday of the 1st, then the month's days. The weekday and the
    length come from `new Date(year, ...)`, which reads years 0..99 as
    1900..1999; the keys and the today test use year itself.
  */
  ghost predicate IsGrid(cells: seq<Cell>, year: int, month: int, today: Date, events: map<string, seq<Event>>)
    requires 0 <= month < 12
  {
    Drawn(cells, WeekDay(Date(ConstructorYear(year), month, 1)), DaysInMonth(ConstructorYear(year), month),
          year, month, today, events)
  }

  /** A grid has at most 6 leading blanks, at least 28 and at most 37
      cells, and ends with the month's last day. */
  lemma GridBounds(cells: seq<Cell>, year: int, month: int, today: Date, events: map<string, seq<Event>>)
    requires 0 <= month < 12
    requires IsGrid(cells, year, month, today, events)
    ensures 28 <= |cells| <= 37
    ensures cells[|cells| - 1].Day? && cells[|cells| - 1].day == DaysInMonth(ConstructorYear(year), month)
    ensures forall i :: 0 <= i < |cells| ==> (cells[i].Blank? <==> i < WeekDay(Date(ConstructorYear(year), month, 1)))
  {
  }

  /** The grid is fully determined by the displayed month, today and the table. */
  lemma GridUnique(a: seq<Cell>, b: seq<Cell>, year: int, month: int, today: Date, events: map<string, seq<Event>>)
    requires 0 <= month < 12
    requires IsGrid(a, year, month, today, events) && IsGrid(b, year, month, today, events)
    ensures a == b
  {
    assert forall i :: 0 <= i < |a| ==> a[i] == b[i];
  }

  /** Adding an event under a key that no day cell carries changes no cell. */
  lemma DrawnIgnoresForeignKey(before: seq<Cell>, after: seq<Cell>, lead: nat, length: nat, year: int, month: int,
                               today: Date, events: map<string, seq<Event>>, key: string, e: Event)
    requires 0 <= month
    requires Drawn(before, lead, length, year, month, today, events)
    requires forall i :: lead <= i < |before| ==> before[i].key != key
    requires Drawn(after, lead, length, year, month, today, AddEvent(events, key, e))
    ensures after == before
  {
    assert forall i :: 0 <= i < |before| ==> after[i] == before[i];
  }

  /** No day cell carries a zero-padded key with a one-digit month or day. */
  lemma PaddedKeyAbsent(cells: seq<Cell>, lead: nat, length: nat, year: int, month: int, today: Date,
                        events: map<string, seq<Event>>, y: nat, m: nat, d: nat)
    requires 0 <= month
    requires m < 10 || d < 10
    requires Drawn(cells, lead, length, year, month, today, events)
    ensures forall i :: lead <= i < |cells| ==> cells[i].key != IsoDate(y, m, d)
  {
    forall i | lead <= i < |cells|
      ensures cells[i].key != IsoDate(y, m, d)
    {
      PaddedIsoDateIsNoKey(y, m, d, year, month + 1, i - lead + 1);
    }
  }

  /**
    An event stored under a zero-padded 'YYYY-MM-DD' string whose month or
    day has a leading zero changes no cell of any grid: the "has-event" mark
    looks up unpadded keys only.
  */
  lemma PaddedDateLeavesGrid(before: seq<Cell>, after: seq<Cell>, year: int, month: int, today: Date,
                             events: map<string, seq<Event>>, y: nat, m: nat, d: nat, e: Event)
    requires 0 <= month < 12
    requires m < 10 || d < 10
    requires IsGrid(before, year, month, today, events)
    requires IsGrid(after, year, month, today, AddEvent(events, IsoDate(y, m, d), e))
    ensures after == before
  {
    var lead := WeekDay(Date(ConstructorYear(year), month, 1));
    var length := DaysInMonth(ConstructorYear(year), month);
    PaddedKeyAbsent(before, lead, length, year, month, today, events, y, m, d);
    DrawnIgnoresForeignKey(before, after, lead, length, year, month, today, events, IsoDate(y, m, d), e);
  }

  /**
    The two facts renderCalendar reads from Date objects: the weekday of
    the 1st and the day before the 1st of the next month, whose day-of-month
    is the month's length, in the year the Date constructor reads.
  */
  method MonthLayout(year: int, month: int) returns (firstDayOfMonth: nat, daysInMonth: nat)
    requires 0 <= month < 12
    ensures firstDayOfMonth == WeekDay(Date(ConstructorYear(year), month, 1))
    ensures daysInMonth == DaysInMonth(ConstructorYear(year), month)
  {
    var gridYear := ConstructorYear(year);
    MakeDayKeepsValid(Date(gridYear, month, 1));
    firstDayOfMonth := WeekDay(DateOfMakeDay(gridYear, month, 1));
    LastDayOfMonth(gridYear, month);
    daysInMonth := DateOfMakeDay(gridYear, month + 1, 0).day;
  }

  /** renderCalendar's two loops: the blanks, then the day cells with their
      keys and marks. */
  method DrawMonth(year: int, month: int, today: Date, events: map<string, seq<Event>>,
                   firstDayOfMonth: nat, daysInMonth: nat) returns (cells: seq<Cell>)
    requires 0 <= month
    ensures Drawn(cells, firstDayOfMonth, daysInMonth, year, month, today, events)
  {
    cells := [];
    var i := 0;
    while i < firstDayOfMonth
      invariant 0 <= i <= firstDayOfMonth
      invariant |cells| == i
      invariant forall j :: 0 <= j < i ==> cells[j] == Blank
    {
      cells := cells + [Blank];
      i := i + 1;
    }

    var d := 1;
    while d <= daysInMonth
      invariant 1 <= d <= daysInMonth + 1
      invariant |cells| == firstDayOfMonth + d - 1
      invariant forall j :: 0 <= j < firstDayOfMonth ==> cells[j] == Blank
      invariant forall j :: firstDayOfMonth <= j < |cells| ==>
        cells[j] == DayCell(year, month, j - firstDayOfMonth + 1, today, events)
    {
      var isToday := d == today.day && month == today.month && year == today.year;
      var dateKey := DateKey(year, month + 1, d);
      var hasEvent := dateKey in events;
      var cell := Day(d, dateKey, isToday, hasEvent);
      assert cell == DayCell(year, month, d, today, events) by {
        DayCellOf(year, month, d, today, events);
      }
      cells := cells + [cell];
      d := d + 1;
    }
  }

  class Calendar {
    /** currentDate: getFullYear(), getMonth() and getDate(). */
    var year: int
    var month: int
    var day: int
    /** The event table, keyed by date string. */
    var events: map<string, seq<Event>>

    ghost predicate Valid()
      reads this
    {
      ValidDate(Date(year, month, day))
    }

    function Current(): Date
      reads this
    {
      Date(year, month, day)
    }

    /** The widget starts on the given date with no events. */
    constructor (now: Date)
      requires ValidDate(now)
      ensures Valid() && Current() == now && events == map[]
    {
      year, month, day := now.year, now.month, now.day;
      events := map[];
    }

    /** renderCalendar: the cells of the displayed month. */
    method Render(today: Date) returns (cells: seq<Cell>)
      requires Valid()
      ensures IsGrid(cells, year, month, today, events)
    {
      var firstDayOfMonth, daysInMonth := MonthLayout(year, month);
      cells := DrawMonth(year, month, today, events, firstDayOfMonth, daysInMonth);
    }

    /** showEventsPopup: the popup's title, then one line per stored event
        in the order they were added, or the placeholder line alone. */
    method ShowEvents(dateKey: string, cellDay: int, cellMonth: int, cellYear: int) returns (p: Popup)
      requires 0 <= cellMonth < 12
      ensures p.title == "Events on " + IntStr(cellDay) + " " + MonthNames[cellMonth] + " " + IntStr(cellYear)
      ensures dateKey in events ==>
        |p.items| == |events[dateKey]|
        && forall i :: 0 <= i < |p.items| ==> p.items[i] == EventLine(events[dateKey][i])
      ensures dateKey !in events ==> p.items == [NoEvents]
    {
      var title := "Events on " + IntStr(cellDay) + " " + MonthNames[cellMonth] + " " + IntStr(cellYear);
      var items: seq<string> := [];
      if dateKey in events {
        var list := events[dateKey];
        var i := 0;
        while i < |list|
          invariant 0 <= i <= |list|
          invariant |items| == i
          invariant forall j :: 0 <= j < i ==> items[j] == EventLine(list[j])
        {
          items := items + [EventLine(list[i])];
          i := i + 1;
        }
      } else {
        items := [NoEvents];
      }
      p := Popup(title, items);
    }

    /** The "prev" button: setMonth(getMonth() - 1), then re-render. */
    method Prev(today: Date) returns (cells: seq<Cell>)
      requires Valid()
      modifies this
      ensures Valid()
      ensures Current() == SetMonth(old(Current()), old(month) - 1)
      ensures events == old(events)
      ensures IsGrid(cells, year, month, today, events)
    {
      var moved := SetMonth(Current(), month - 1);
      year, month, day := moved.year, moved.month, moved.day;
      cells := Render(today);
    }

    /** The "next" button: setMonth(getMonth() + 1), then re-render. */
    method Next(today: Date) returns (cells: seq<Cell>)
      requires Valid()
      modifies this
      ensures Valid()
      ensures Current() == SetMonth(old(Current()), old(month) + 1)
      ensures events == old(events)
      ensures IsGrid(cells, year, month, today, events)
    {
      var moved := SetMonth(Current(), month + 1);
      year, month, day := moved.year, moved.month, moved.day;
      cells := Render(today);
    }

    /** The year dropdown: setFullYear(selected), then re-render. */
    method SelectYear(selected: int, today: Date) returns (cells: seq<Cell>)
      requires Valid()
      modifies this
      ensures Valid()
      ensures Current() == SetFullYear(old(Current()), selected)
      ensures events == old(events)
      ensures IsGrid(cells, year, month, today, events)
    {
      var moved := SetFullYear(Current(), selected);
      year, month, day := moved.year, moved.month, moved.day;
      cells := Render(today);
    }

    /**
      The event form: a rejected entry changes nothing and draws nothing; an
      accepted one appends the trimmed name and description under the date
      string exactly as typed, then re-renders.
    */
    method Submit(rawName: string, date: string, rawDesc: string, today: Date) returns (rendered: Option<seq<Cell>>)
      requires Valid()
      modifies this
      ensures Valid() && Current() == old(Current())
      ensures rendered.Some? <==> Accepts(date, rawName, rawDesc)
      ensures rendered.None? ==> events == old(events)
      ensures rendered.Some? ==>
        events == AddEvent(old(events), date, Event(Trim(rawName), Trim(rawDesc)))
        && IsGrid(rendered.value, year, month, today, events)
    {
      var name := Trim(rawName);
      var desc := Trim(rawDesc);
      if date == "" || name == "" || desc == "" {
        return None;
      }
      ghost var list := EventsAt(events, date) + [Event(name, desc)];
      if date !in events {
        events := events[date := []];
      }
      assert events[date] + [Event(name, desc)] == list;
      events := events[date := events[date] + [Event(name, desc)]];
      assert events == old(events)[date := list];
      var cells := Render(today);
      rendered := Some(cells);
    }
  }

  /** A client: a blank name is refused and leaves the table empty. */
  method RejectBlankName(now: Date, today: Date)
    requires ValidDate(now)
  {
    var cal := new Calendar(now);
    TrimEmptyIff(" ");
    var rendered := cal.Submit(" ", "2026-3-15", "desc", today);
    assert rendered.None? && cal.events == map[];
  }

  /** A client: add an event, then open the popup of its day and of
      another day. The event is listed as "name: desc" under the date string
      as typed; the other day lists the placeholder line. */
  method AddThenShow(now: Date, name: string, desc: string, date: string, other: string,
                     cellDay: int, cellMonth: int, cellYear: int, today: Date)
    requires ValidDate(now) && 0 <= cellMonth < 12
    requires name != [] && !IsJsSpace(name[0]) && !IsJsSpace(name[|name| - 1])
    requires desc != [] && !IsJsSpace(desc[0]) && !IsJsSpace(desc[|desc| - 1])
    requires date != "" && other != date
  {
    var cal := new Calendar(now);
    TrimKeepsInner(name);
    TrimKeepsInner(desc);
    var rendered := cal.Submit(name, date, desc, today);
    assert rendered.Some? && cal.events == map[date := [Event(name, desc)]];
    var p := cal.ShowEvents(date, cellDay, cellMonth, cellYear);
    assert p.items == [EventLine(Event(name, desc))];
    var q := cal.ShowEvents(other, cellDay, cellMonth, cellYear);
    assert q.items == [NoEvents];
  }
}
