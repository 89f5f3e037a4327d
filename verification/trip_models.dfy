/** The itinerary entities of _trips/models.py. Events and activities are
    objects whose columns `save` updates in place before the row is
    written; trips and the attached resources are plain values here. */
module TripModels {
  import opened Common
  import opened Timeline

  datatype Trip = Trip(id: Uuid, name: string)

  datatype ActivityType = Airplane | Car | Bus | Train | Walk | Main | Waiting

  /** An image, file or link attached to an event, to an activity, or to
      both; `payload` stands for the stored file or URL. */
  datatype Resource = Resource(id: Uuid, event: Option<Uuid>, activity: Option<Uuid>, title: string, payload: string)

  /** An activity's start date after the save-time default: its own when
      set, otherwise the parent event's start date (which may be unset). */
  function InheritDateStart(f: Fields, parentStart: Option<Date>): Fields {
    if f.dateStart.None? && parentStart.Some? then f.(dateStart := parentStart) else f
  }

  /** The timeline columns an activity is stored with: inherit the start
      date, then recalculate the duration. */
  function SavedActivity(f: Fields, parentStart: Option<Date>): Fields {
    Recalculate(InheritDateStart(f, parentStart))
  }

  /** Saving an activity never overwrites a start date it already has,
      fills an unset one from the parent event, inherits nothing else, and
      computes the duration from the inherited date. */
  lemma {:induction false} SavedActivityInheritsStartOnly(f: Fields, parentStart: Option<Date>)
    ensures var g := SavedActivity(f, parentStart);
      g.dateStart == (if f.dateStart.Some? then f.dateStart else parentStart) &&
      g.timeStart == f.timeStart && g.dateEnd == f.dateEnd && g.timeEnd == f.timeEnd
    ensures var g := SavedActivity(f, parentStart);
      g.duration == RecalculatedDuration(f.(dateStart := g.dateStart))
    ensures f.dateStart.Some? ==> SavedActivity(f, parentStart) == Recalculate(f)
  {
    var h := InheritDateStart(f, parentStart);
    assert h == f.(dateStart := h.dateStart);
  }

  /** Saving an activity twice stores what saving it once stores. */
  lemma {:induction false} SavedActivityIdempotent(f: Fields, parentStart: Option<Date>)
    ensures SavedActivity(SavedActivity(f, parentStart), parentStart) == SavedActivity(f, parentStart)
  {
    var h := InheritDateStart(f, parentStart);
    RecalculateIdempotent(h);
    assert InheritDateStart(Recalculate(h), parentStart) == Recalculate(h);
  }

  /** Worked values: an activity without a start date under an event that
      starts on day 10 gets day 10; one that starts on day 14 keeps it. */
  lemma InheritExamples()
    ensures SavedActivity(Fields(None, None, None, None, None), Some(10)).dateStart == Some(10)
    ensures SavedActivity(Fields(Some(14), None, None, None, None), Some(10)).dateStart == Some(14)
  {
  }

  class Event {
    const id: Uuid
    var trip: Uuid
    var name: string
    var dateStart: Option<Date>
    var timeStart: Option<TimeOfDay>
    var dateEnd: Option<Date>
    var timeEnd: Option<TimeOfDay>
    var duration: Option<Tenths>
    var location: Option<string>
    var extraInfos: Option<string>
    var optional: bool

    /** A new event: every nullable column unset, not optional. */
    constructor (id: Uuid, trip: Uuid, name: string)
      ensures this.id == id && this.trip == trip && this.name == name
      ensures Timing() == Fields(None, None, None, None, None)
      ensures location.None? && extraInfos.None? && !optional
    {
      this.id := id;
      this.trip := trip;
      this.name := name;
      dateStart, timeStart, dateEnd, timeEnd, duration := None, None, None, None, None;
      location, extraInfos, optional := None, None, false;
    }

    /** The five timeline columns as one value. */
    function Timing(): Fields
      reads this
    {
      Fields(dateStart, timeStart, dateEnd, timeEnd, duration)
    }

    /** Recompute the duration from the date/time columns; nothing else
      changes. */
    method CalculateDuration()
      modifies this`duration
      ensures Timing() == Recalculate(old(Timing()))
    {
      duration := RecalculatedDuration(Timing());
    }

    /** Save: the duration is recomputed before the row is written. */
    method Save()
      modifies this`duration
      ensures Timing() == Recalculate(old(Timing()))
    {
      CalculateDuration();
    }
  }

  class Activity {
    const id: Uuid
    var event: Event
    var activityType: ActivityType
    var name: string
    var dateStart: Option<Date>
    var timeStart: Option<TimeOfDay>
    var dateEnd: Option<Date>
    var timeEnd: Option<TimeOfDay>
    var duration: Option<Tenths>
    var locationStart: Option<string>
    var locationEnd: Option<string>

    /** A new activity of an event: every nullable column unset. */
    constructor (id: Uuid, event: Event, activityType: ActivityType, name: string)
      ensures this.id == id && this.event == event && this.activityType == activityType && this.name == name
      ensures Timing() == Fields(None, None, None, None, None)
      ensures locationStart.None? && locationEnd.None?
    {
      this.id := id;
      this.event := event;
      this.activityType := activityType;
      this.name := name;
      dateStart, timeStart, dateEnd, timeEnd, duration := None, None, None, None, None;
      locationStart, locationEnd := None, None;
    }

    function Timing(): Fields
      reads this
    {
      Fields(dateStart, timeStart, dateEnd, timeEnd, duration)
    }

    method CalculateDuration()
      modifies this`duration
      ensures Timing() == Recalculate(old(Timing()))
    {
      duration := RecalculatedDuration(Timing());
    }

    /** Save: fill an unset start date from the parent event, then
      recompute the duration, then write the row. The parent event and
      every other column are left as they were. */
    method Save()
      modifies this`dateStart, this`duration
      ensures Timing() == SavedActivity(old(Timing()), event.dateStart)
      ensures old(dateStart).Some? ==> dateStart == old(dateStart)
    {
      if dateStart.None? && event.dateStart.Some? {
        dateStart := event.dateStart;
      }
      CalculateDuration();
    }
  }
}
