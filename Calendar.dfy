/**
  The `FamilyCalendar` object in its local-storage mode (the database handle is
  always null, so every branch that writes to a remote database is dead): the
  shown month, the in-memory event collection, the id of the event being
  edited, and the operations that change them.

  Storage is a snapshot passed in: `None` stands for a missing or empty
  `familyCalendarEvents` item, `Some(s)` for an item whose JSON text holds the
  collection `s`. Dates are day numbers; `now` and `today` are parameters.
*/
module Calendar {
  import opened CivilDate
  import opened DateFormat
  import opened Events
  import opened Grid

  /** The storage key the collection is kept under. */
  const StorageKey := "familyCalendarEvents"

  /** `loadEventsFromLocal`: the stored collection, or the empty one when nothing is stored. */
  function LoadEventsFromLocal(stored: Option<seq<Event>>): (r: seq<Event>)
    ensures stored == None ==> r == []
    ensures stored != None ==> r == stored.value
  {
    match stored
    case None => []
    case Some(s) => s
  }

  /** Reading back what was just written gives the same collection. */
  lemma LoadSaved(s: seq<Event>)
    ensures LoadEventsFromLocal(Some(s)) == s
  {
  }

  /** `if (this.editingEventId)`: an id is present and, being a string, non-empty. */
  predicate IsEditing(editingEventId: Option<string>) {
    editingEventId.Some? && editingEventId.value != ""
  }

  /** The collection after `saveEvent(e)` in local mode, given the editing state. */
  function SavedEvents(events: seq<Event>, editingEventId: Option<string>, e: Event): seq<Event> {
    if IsEditing(editingEventId) then ReplaceFirst(events, editingEventId.value, e) else events + [e]
  }

  /**
    Saving while editing replaces the first event with the edited id and nothing
    else; if no event has that id, nothing changes.
  */
  lemma SaveWhileEditing(events: seq<Event>, id: string, e: Event)
    requires id != ""
    ensures var r := SavedEvents(events, Some(id), e);
      var index := FindIndex(events, id);
      && |r| == |events|
      && (index == -1 ==> r == events)
      && (index != -1 ==> r[index] == e)
      && forall j :: 0 <= j < |events| && j != index ==> r[j] == events[j]
  {
    var index := FindIndex(events, id);
    if index != -1 {
      forall j | 0 <= j < |events| && j != index
        ensures ReplaceFirst(events, id, e)[j] == events[j]
      {
        if j > index {
          assert !(forall i :: 0 <= i < j ==> events[i].id != id) by {
            assert events[index].id == id;
          }
        }
      }
    }
  }

  /** Saving a new event appends it after every event already there. */
  lemma SaveNew(events: seq<Event>, editingEventId: Option<string>, e: Event)
    requires !IsEditing(editingEventId)
    ensures var r := SavedEvents(events, editingEventId, e);
      |r| == |events| + 1 && r[..|events|] == events && r[|events|] == e
  {
    assert (events + [e])[..|events|] == events;
  }

  /**
    `setMonth(m)` on the date of day `t`: the same year and day of the month in
    month `m`, normalised as `MakeDay` does (without the two-digit-year rule of
    the `Date` constructor).
  */
  function SetMonth(t: int, m: int): int {
    var c := Civil(t);
    MakeDay(c.year, m, c.day)
  }

  /** When month `m` has the current day of the month, `setMonth(m)` lands on that day of it. */
  lemma SetMonthFits(t: int, m: int)
    requires Civil(t).day <= MonthDays(Civil(t).year, m)
    ensures Civil(SetMonth(t, m)) == Date(Civil(t).year + m / 12, m % 12, Civil(t).day)
  {
    var c := Civil(t);
    MakeDayValid(c.year, m, c.day);
  }

  /** When it does not, `setMonth(m)` runs on into the month after it by the excess days. */
  lemma SetMonthOverflows(t: int, m: int)
    requires MonthDays(Civil(t).year, m) < Civil(t).day
    ensures Civil(SetMonth(t, m))
      == Date(Civil(t).year + (m + 1) / 12, (m + 1) % 12, Civil(t).day - MonthDays(Civil(t).year, m))
  {
    var c := Civil(t);
    assert c.day <= 31;
    MakeDayCarryValid(c.year, m, c.day);
  }

  /**
    Where `setMonth(m)` lands: on the same day of month `m` when that month has
    such a day, and otherwise that many days into the month after it.
  */
  lemma SetMonthLands(t: int, m: int)
    ensures var c := Civil(t);
      && (c.day <= MonthDays(c.year, m) ==> Civil(SetMonth(t, m)) == Date(c.year + m / 12, m % 12, c.day))
      && (MonthDays(c.year, m) < c.day ==>
            Civil(SetMonth(t, m)) == Date(c.year + (m + 1) / 12, (m + 1) % 12, c.day - MonthDays(c.year, m)))
  {
    if Civil(t).day <= MonthDays(Civil(t).year, m) {
      SetMonthFits(t, m);
    } else {
      SetMonthOverflows(t, m);
    }
  }

  /** `setMonth(m)` shows month `m` exactly when the current day of the month exists in it. */
  lemma SetMonthLandsIff(t: int, m: int)
    ensures Civil(SetMonth(t, m)).month == m % 12
      <==> Civil(t).day <= MonthDays(Civil(t).year, m)
  {
    SetMonthLands(t, m);
  }

  /** From January 31 2024, `nextMonth` lands on March 2: February is skipped. */
  lemma NextMonthFromJanuary31(year: int)
    requires year == 2024
    ensures Civil(SetMonth(DayNumber(Date(year, 0, 31)), 1)) == Date(year, 2, 2)
  {
    CivilOfDayNumber(Date(year, 0, 31));
    assert DaysInMonth(year, 1) == 29;
    SetMonthLands(DayNumber(Date(year, 0, 31)), 1);
  }

  /** From March 31 2024, `previousMonth` lands on March 2: the month does not change. */
  lemma PreviousMonthFromMarch31(year: int)
    requires year == 2024
    ensures Civil(SetMonth(DayNumber(Date(year, 2, 31)), 1)) == Date(year, 2, 2)
  {
    CivilOfDayNumber(Date(year, 2, 31));
    assert DaysInMonth(year, 1) == 29;
    SetMonthLands(DayNumber(Date(year, 2, 31)), 1);
  }

  /** Month navigation that keeps to the target month: the day of the month is clamped to its length. */
  function ShiftMonth(t: int, delta: int): int {
    var c := Civil(t);
    var m := c.month + delta;
    var d := if c.day <= MonthDays(c.year, m) then c.day else MonthDays(c.year, m);
    DayNumber(Date(c.year + m / 12, m % 12, d))
  }

  /** A shifted date always lies in the month `delta` months on, on the nearest day that exists there. */
  lemma ShiftMonthLands(t: int, delta: int)
    ensures var c := Civil(t);
      var m := c.month + delta;
      Civil(ShiftMonth(t, delta))
        == Date(c.year + m / 12, m % 12, if c.day <= MonthDays(c.year, m) then c.day else MonthDays(c.year, m))
  {
    var c := Civil(t);
    var m := c.month + delta;
    var d := if c.day <= MonthDays(c.year, m) then c.day else MonthDays(c.year, m);
    CivilOfDayNumber(Date(c.year + m / 12, m % 12, d));
  }

  /** Where the day exists in the target month, the clamped shift is what `setMonth` does. */
  lemma ShiftMonthAgrees(t: int, delta: int)
    requires Civil(t).day <= MonthDays(Civil(t).year, Civil(t).month + delta)
    ensures ShiftMonth(t, delta) == SetMonth(t, Civil(t).month + delta)
  {
    var c := Civil(t);
    MakeDayIsDayNumber(c.year, c.month + delta, c.day);
  }

  /** One month on and one month back returns to the month started from. */
  lemma ShiftMonthBack(t: int)
    ensures var c, r := Civil(t), Civil(ShiftMonth(ShiftMonth(t, 1), -1));
      r.year == c.year && r.month == c.month
  {
    var c := Civil(t);
    ShiftMonthLands(t, 1);
    var c1 := Civil(ShiftMonth(t, 1));
    ShiftMonthLands(ShiftMonth(t, 1), -1);
    if c.month == 11 {
      assert c1.year == c.year + 1 && c1.month == 0;
    } else {
      assert c1.year == c.year && c1.month == c.month + 1;
    }
  }

  class FamilyCalendar {
    /** `currentDate`: a day of the shown month. */
    var currentDate: int
    /** `events`: the in-memory collection. */
    var events: seq<Event>
    /** `editingEventId`: the id of the event open in the form, or null. */
    var editingEventId: Option<string>

    /** The constructor: today's date, the stored collection, no event being edited. */
    constructor(stored: Option<seq<Event>>, now: int)
      ensures currentDate == now && events == LoadEventsFromLocal(stored) && editingEventId == None
    {
      currentDate := now;
      events := [];
      editingEventId := None;
      events := LoadEventsFromLocal(stored);
    }

    /** `showEventForm(event)`: editing that event's id, or adding when there is none. */
    method ShowEventForm(event: Option<Event>)
      modifies this
      ensures editingEventId == (if event.Some? then Some(event.value.id) else None)
      ensures currentDate == old(currentDate) && events == old(events)
    {
      editingEventId := if event.Some? then Some(event.value.id) else None;
    }

    /** `hideEventForm`: no event is being edited any more. */
    method HideEventForm()
      modifies this
      ensures editingEventId == None
      ensures currentDate == old(currentDate) && events == old(events)
    {
      editingEventId := None;
    }

    /**
      `saveEvent(eventData)` in local mode: overwrite the element at the first index
      with the edited id, or push a new element; `stored` is what is then written
      to storage.
    */
    method SaveEvent(eventData: Event) returns (stored: seq<Event>)
      modifies this
      ensures events == SavedEvents(old(events), old(editingEventId), eventData)
      ensures currentDate == old(currentDate) && editingEventId == old(editingEventId)
      ensures stored == events
    {
      if IsEditing(editingEventId) {
        var index := FindIndex(events, editingEventId.value);
        if index != -1 {
          events := events[index := eventData];
        }
      } else {
        events := events + [eventData];
      }
      stored := events;
    }

    /** `deleteEventById(eventId)`: keep every event with another id; `stored` is then written. */
    method DeleteEventById(eventId: string) returns (stored: seq<Event>)
      modifies this
      ensures events == RemoveById(old(events), eventId)
      ensures currentDate == old(currentDate) && editingEventId == old(editingEventId)
      ensures stored == events
    {
      events := Filter(events, (e: Event) => e.id != eventId);
      stored := events;
    }

    /** The once-a-second check: adopt the stored collection when it differs from the one in memory. */
    method DriftTick(loaded: Option<seq<Event>>) returns (changed: bool)
      modifies this
      ensures events == LoadEventsFromLocal(loaded)
      ensures changed <==> old(events) != LoadEventsFromLocal(loaded)
      ensures currentDate == old(currentDate) && editingEventId == old(editingEventId)
    {
      var newEvents := LoadEventsFromLocal(loaded);
      changed := newEvents != events;
      if changed {
        events := newEvents;
      }
    }

    /** The `storage` listener: reload when the calendar's own key changed in another tab. */
    method StorageChanged(key: string, loaded: Option<seq<Event>>)
      modifies this
      ensures events == if key == StorageKey then LoadEventsFromLocal(loaded) else old(events)
      ensures currentDate == old(currentDate) && editingEventId == old(editingEventId)
    {
      if key == StorageKey {
        events := LoadEventsFromLocal(loaded);
      }
    }

    /** `previousMonth`: `setMonth(getMonth() - 1)`. */
    method PreviousMonth()
      modifies this
      ensures currentDate == SetMonth(old(currentDate), Civil(old(currentDate)).month - 1)
      ensures events == old(events) && editingEventId == old(editingEventId)
    {
      currentDate := SetMonth(currentDate, Civil(currentDate).month - 1);
    }

    /** `nextMonth`: `setMonth(getMonth() + 1)`. */
    method NextMonth()
      modifies this
      ensures currentDate == SetMonth(old(currentDate), Civil(old(currentDate)).month + 1)
      ensures events == old(events) && editingEventId == old(editingEventId)
    {
      currentDate := SetMonth(currentDate, Civil(currentDate).month + 1);
    }

    /** `renderCalendar` for the shown month, with `today` the current day. */
    method RenderCalendar(today: int) returns (grid: seq<Cell>)
      ensures grid == MonthGrid(Civil(currentDate).year, Civil(currentDate).month, EventLookup(events), today)
    {
      var year := Civil(currentDate).year;
      var month := Civil(currentDate).month;
      grid := RenderMonth(year, month, EventLookup(events), today);
    }
  }

  /**
    A saved event whose date is day `d` of the shown month appears in that day's
    cell, and in no other cell from the 1st on.
  */
  lemma SavedEventShown(year: int, month: int, events: seq<Event>, editingEventId: Option<string>,
                        e: Event, today: int, d: int)
    requires 0 <= month < 12 && 1 <= d <= DaysInMonth(FullYear(year), month)
    requires !IsEditing(editingEventId) && e.date == FormatCivil(Date(FullYear(year), month, d))
    ensures var g := MonthGrid(year, month, EventLookup(SavedEvents(events, editingEventId, e)), today);
      var k := StartDay(year, month) + d - 1;
      && e in g[k].events
      && forall j :: StartDay(year, month) <= j < 42 && j != k ==> e !in g[j].events
  {
    var r := SavedEvents(events, editingEventId, e);
    assert e in r by {
      assert r[|events|] == e;
    }
    EventInOneCell(year, month, r, today, e, d);
  }

  /** After deleting id `id`, no cell of any month lists an event with that id. */
  lemma DeletedEventGone(year: int, month: int, events: seq<Event>, id: string, today: int)
    ensures var g := MonthGrid(year, month, EventLookup(RemoveById(events, id)), today);
      forall k, e :: 0 <= k < 42 && e in g[k].events ==> e.id != id
  {
    var r := RemoveById(events, id);
    var g := MonthGrid(year, month, EventLookup(r), today);
    forall k, e | 0 <= k < 42 && e in g[k].events
      ensures e.id != id
    {
      EventInCellIff(year, month, r, today, k, e);
    }
  }
}
