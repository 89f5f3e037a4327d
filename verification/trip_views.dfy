/** The itinerary page of _trips/views.py (`trip_read`): the requested
    trip, its events in (start date, start time) order, each with the
    images, files and links attached to the event and claimed by none of
    its activities, and its activities in the same order, each with all of
    its own resources.

    The database is a value holding one sequence of rows per table, so the
    assembly is a function of it: it writes nothing, and asking twice of
    the same store gives the same page. */
module TripViews {
  import opened Common
  import opened Timeline
  import opened TripModels
  import opened Ordering

  /** A stored event row. */
  datatype EventRow = EventRow(
    id: Uuid, trip: Uuid, name: string, timing: Fields,
    location: Option<string>, extraInfos: Option<string>, optional: bool)

  /** A stored activity row. */
  datatype ActivityRow = ActivityRow(
    id: Uuid, event: Uuid, activityType: ActivityType, name: string, timing: Fields,
    locationStart: Option<string>, locationEnd: Option<string>)

  /** The tables the page reads, each in the database's storage order. */
  datatype Store = Store(
    trips: seq<Trip>, events: seq<EventRow>, activities: seq<ActivityRow>,
    images: seq<Resource>, files: seq<Resource>, links: seq<Resource>)

  datatype ActivityView = ActivityView(
    activity: ActivityRow, images: seq<Resource>, files: seq<Resource>, links: seq<Resource>)

  datatype EventView = EventView(
    event: EventRow, images: seq<Resource>, files: seq<Resource>, links: seq<Resource>,
    activities: seq<ActivityView>)

  datatype TripView = TripView(trip: Trip, events: seq<EventView>)

  /** The trip identifier names no trip. */
  datatype NotFound = NotFound

  function EventKey(e: EventRow): Key {
    Key(e.timing.dateStart, e.timing.timeStart)
  }

  function ActivityKey(a: ActivityRow): Key {
    Key(a.timing.dateStart, a.timing.timeStart)
  }

  function OfTrip(tripId: Uuid): EventRow -> bool {
    (e: EventRow) => e.trip == tripId
  }

  function OfEvent(eventId: Uuid): ActivityRow -> bool {
    (a: ActivityRow) => a.event == eventId
  }

  /** Attached to the event and not to any activity. */
  function UnclaimedOf(eventId: Uuid): Resource -> bool {
    (r: Resource) => r.event == Some(eventId) && r.activity.None?
  }

  /** Attached to the activity, whatever its event column says. */
  function ClaimedBy(activityId: Uuid): Resource -> bool {
    (r: Resource) => r.activity == Some(activityId)
  }

  /** Primary-key lookup of a trip. */
  function FindTrip(trips: seq<Trip>, id: Uuid): Option<Trip> {
    if trips == [] then None
    else if trips[0].id == id then Some(trips[0])
    else FindTrip(trips[1..], id)
  }

  function ViewActivity(store: Store, a: ActivityRow): ActivityView {
    ActivityView(a,
      Filter(store.images, ClaimedBy(a.id)),
      Filter(store.files, ClaimedBy(a.id)),
      Filter(store.links, ClaimedBy(a.id)))
  }

  /** The event's activities, ordered. */
  function ActivitiesInOrder(store: Store, nullsFirst: bool, eventId: Uuid): seq<ActivityRow> {
    SortBy(Filter(store.activities, OfEvent(eventId)), ActivityKey, nullsFirst)
  }

  function ViewEvent(store: Store, nullsFirst: bool, e: EventRow): EventView {
    var acts := ActivitiesInOrder(store, nullsFirst, e.id);
    EventView(e,
      Filter(store.images, UnclaimedOf(e.id)),
      Filter(store.files, UnclaimedOf(e.id)),
      Filter(store.links, UnclaimedOf(e.id)),
      seq(|acts|, i requires 0 <= i < |acts| => ViewActivity(store, acts[i])))
  }

  /** The trip's events, ordered. */
  function EventsInOrder(store: Store, nullsFirst: bool, tripId: Uuid): seq<EventRow> {
    SortBy(Filter(store.events, OfTrip(tripId)), EventKey, nullsFirst)
  }

  /** The page for one trip, or NotFound when no trip has that key. */
  function TripRead(store: Store, tripId: Uuid, nullsFirst: bool): Result<TripView, NotFound> {
    match FindTrip(store.trips, tripId)
    case None => Err(NotFound)
    case Some(trip) =>
      var es := EventsInOrder(store, nullsFirst, tripId);
      Ok(TripView(trip, seq(|es|, i requires 0 <= i < |es| => ViewEvent(store, nullsFirst, es[i]))))
  }

  function EventRows(v: TripView): seq<EventRow> {
    seq(|v.events|, i requires 0 <= i < |v.events| => v.events[i].event)
  }

  function ActivityRows(v: EventView): seq<ActivityRow> {
    seq(|v.activities|, i requires 0 <= i < |v.activities| => v.activities[i].activity)
  }

  // ---------------------------------------------------------------------
  // Properties

  /** The lookup finds a trip exactly when one has the key, and what it
      finds has the key. */
  lemma {:induction false} FindTripCorrect(trips: seq<Trip>, id: Uuid)
    ensures FindTrip(trips, id).Some? <==> exists t :: t in trips && t.id == id
    ensures FindTrip(trips, id).Some? ==> FindTrip(trips, id).value in trips && FindTrip(trips, id).value.id == id
  {
    if trips != [] && trips[0].id != id {
      FindTripCorrect(trips[1..], id);
      assert forall t :: t in trips ==> t == trips[0] || t in trips[1..];
    }
  }

  /** The page is NotFound exactly when no trip has the key; otherwise it
      is for that trip, and its events are exactly the trip's event rows,
      each as often as stored, none added or dropped, in non-decreasing
      (start date, start time) order. */
  lemma {:induction false} TripReadEvents(store: Store, tripId: Uuid, nullsFirst: bool)
    ensures TripRead(store, tripId, nullsFirst).Err? <==> forall t :: t in store.trips ==> t.id != tripId
    ensures TripRead(store, tripId, nullsFirst).Ok? ==>
      var v := TripRead(store, tripId, nullsFirst).value;
      v.trip in store.trips && v.trip.id == tripId &&
      SortedBy(EventRows(v), EventKey, nullsFirst) &&
      (forall e :: multiset(EventRows(v))[e] == if e.trip == tripId then multiset(store.events)[e] else 0) &&
      (forall e :: e in EventRows(v) <==> e in store.events && e.trip == tripId)
  {
    FindTripCorrect(store.trips, tripId);
    var r := TripRead(store, tripId, nullsFirst);
    if r.Ok? {
      var v := r.value;
      var selected := Filter(store.events, OfTrip(tripId));
      assert EventRows(v) == EventsInOrder(store, nullsFirst, tripId);
      SortByCorrect(selected, EventKey, nullsFirst);
      forall e: EventRow ensures multiset(EventRows(v))[e] == if e.trip == tripId then multiset(store.events)[e] else 0 {
        FilterCount(store.events, OfTrip(tripId), e);
      }
      forall e: EventRow ensures e in EventRows(v) <==> e in store.events && e.trip == tripId {
        FilterCount(store.events, OfTrip(tripId), e);
        assert e in EventRows(v) <==> multiset(EventRows(v))[e] > 0;
        assert e in store.events <==> multiset(store.events)[e] > 0;
      }
    }
  }

  /** Among events whose start date and time are both set, the page lists
      them in order of their effective start instant. */
  lemma {:induction false} TripReadChronological(store: Store, tripId: Uuid, nullsFirst: bool, i: int, j: int)
    requires TripRead(store, tripId, nullsFirst).Ok?
    requires 0 <= i < j < |TripRead(store, tripId, nullsFirst).value.events|
    requires HasTime(TripRead(store, tripId, nullsFirst).value.events[i].event.timing)
    requires HasTime(TripRead(store, tripId, nullsFirst).value.events[j].event.timing)
    ensures var es := TripRead(store, tripId, nullsFirst).value.events;
      Instant(EffectiveStart(es[i].event.timing).value) <= Instant(EffectiveStart(es[j].event.timing).value)
  {
    var v := TripRead(store, tripId, nullsFirst).value;
    TripReadEvents(store, tripId, nullsFirst);
    var a := EventRows(v)[i].timing;
    var b := EventRows(v)[j].timing;
    assert KeyLe(nullsFirst, EventKey(EventRows(v)[i]), EventKey(EventRows(v)[j]));
    KeyLeIsChronological(nullsFirst, a.dateStart.value, a.timeStart.value, b.dateStart.value, b.timeStart.value);
  }

  /** Every event on the page is shown as ViewEvent shows it. */
  lemma TripReadNestsEventViews(store: Store, tripId: Uuid, nullsFirst: bool, i: int)
    requires TripRead(store, tripId, nullsFirst).Ok?
    requires 0 <= i < |TripRead(store, tripId, nullsFirst).value.events|
    ensures var ev := TripRead(store, tripId, nullsFirst).value.events[i];
      ev == ViewEvent(store, nullsFirst, ev.event)
  {
  }

  /** An event's activities are exactly the activity rows that point at
      it, each as often as stored, in non-decreasing (start date, start
      time) order. */
  lemma {:induction false} EventActivitiesSelectedAndOrdered(store: Store, nullsFirst: bool, e: EventRow)
    ensures var acts := ActivityRows(ViewEvent(store, nullsFirst, e));
      SortedBy(acts, ActivityKey, nullsFirst) &&
      (forall a :: multiset(acts)[a] == if a.event == e.id then multiset(store.activities)[a] else 0) &&
      (forall a :: a in acts <==> a in store.activities && a.event == e.id)
  {
    var acts := ActivityRows(ViewEvent(store, nullsFirst, e));
    assert acts == ActivitiesInOrder(store, nullsFirst, e.id);
    SortByCorrect(Filter(store.activities, OfEvent(e.id)), ActivityKey, nullsFirst);
    forall a: ActivityRow ensures multiset(acts)[a] == if a.event == e.id then multiset(store.activities)[a] else 0 {
      FilterCount(store.activities, OfEvent(e.id), a);
    }
    forall a: ActivityRow ensures a in acts <==> a in store.activities && a.event == e.id {
      FilterCount(store.activities, OfEvent(e.id), a);
      assert a in acts <==> multiset(acts)[a] > 0;
      assert a in store.activities <==> multiset(store.activities)[a] > 0;
    }
  }

  /** At event level the page shows exactly the event's images, files and
      links that no activity claims. */
  lemma {:induction false} EventResourcesUnclaimed(store: Store, nullsFirst: bool, e: EventRow, r: Resource)
    ensures var ev := ViewEvent(store, nullsFirst, e);
      (r in ev.images <==> r in store.images && r.event == Some(e.id) && r.activity.None?) &&
      (r in ev.files <==> r in store.files && r.event == Some(e.id) && r.activity.None?) &&
      (r in ev.links <==> r in store.links && r.event == Some(e.id) && r.activity.None?)
  {
    FilterMembership(store.images, UnclaimedOf(e.id), r);
    FilterMembership(store.files, UnclaimedOf(e.id), r);
    FilterMembership(store.links, UnclaimedOf(e.id), r);
  }

  /** At activity level the page shows every resource that names the
      activity, unfiltered. */
  lemma {:induction false} ActivityResourcesClaimed(store: Store, a: ActivityRow, r: Resource)
    ensures var av := ViewActivity(store, a);
      (r in av.images <==> r in store.images && r.activity == Some(a.id)) &&
      (r in av.files <==> r in store.files && r.activity == Some(a.id)) &&
      (r in av.links <==> r in store.links && r.activity == Some(a.id))
  {
    FilterMembership(store.images, ClaimedBy(a.id), r);
    FilterMembership(store.files, ClaimedBy(a.id), r);
    FilterMembership(store.links, ClaimedBy(a.id), r);
  }

  /** No resource is shown both at an event and at one of its
      activities. */
  lemma {:induction false} EventAndActivityResourcesDisjoint(store: Store, nullsFirst: bool, e: EventRow, i: int, r: Resource)
    requires 0 <= i < |ViewEvent(store, nullsFirst, e).activities|
    ensures var ev := ViewEvent(store, nullsFirst, e);
      var av := ev.activities[i];
      !(r in ev.images && r in av.images) &&
      !(r in ev.files && r in av.files) &&
      !(r in ev.links && r in av.links)
  {
    var ev := ViewEvent(store, nullsFirst, e);
    var acts := ActivitiesInOrder(store, nullsFirst, e.id);
    assert ev.activities[i] == ViewActivity(store, acts[i]);
    EventResourcesUnclaimed(store, nullsFirst, e, r);
    ActivityResourcesClaimed(store, acts[i], r);
  }

  /** Worked values: an event with two images, one of them also attached
      to the event's activity, shows one image itself and the other at the
      activity. */
  lemma ResourceSplitExample(nullsFirst: bool)
    ensures
      var f := Fields(None, None, None, None, None);
      var e := EventRow(1, 0, "day", f, None, None, false);
      var a := ActivityRow(2, 1, Walk, "walk", f, None, None);
      var own := Resource(3, Some(1), None, "", "");
      var shared := Resource(4, Some(1), Some(2), "", "");
      var ev := ViewEvent(Store([Trip(0, "trip")], [e], [a], [own, shared], [], []), nullsFirst, e);
      ev.images == [own] && |ev.activities| == 1 && ev.activities[0].images == [shared]
  {
    var f := Fields(None, None, None, None, None);
    var a := ActivityRow(2, 1, Walk, "walk", f, None, None);
    var own := Resource(3, Some(1), None, "", "");
    var shared := Resource(4, Some(1), Some(2), "", "");
    assert Filter([a], OfEvent(1)) == [a];
    assert SortBy([a], ActivityKey, nullsFirst) == [a];
    assert Filter([shared], UnclaimedOf(1)) == [];
    assert [own, shared][1..] == [shared];
    assert Filter([shared], ClaimedBy(2)) == [shared];
    assert Filter([own, shared], ClaimedBy(2)) == [shared];
    assert Filter([own, shared], UnclaimedOf(1)) == [own] + Filter([shared], UnclaimedOf(1));
  }
}
