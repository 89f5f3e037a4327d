# Trip itinerary timeline and shopping-list reset

A Dafny model of the parts of the personal-organizer application that do
more than store rows. These are:

- **Timeline value rules.** Events and activities share these rules
  (`TimelineMixin`). The effective start and end combine a date with an
  optional time of day. `has_time` reports whether the start is precise.
  The duration is recomputed from the four date/time columns. It is shown
  as `"2h"` or `"2.5h"`, or not shown at all.
- **Save-time defaulting.** `Event.save` recomputes the duration.
  `Activity.save` first copies a missing start date from its parent event,
  then recomputes the duration.
- **Timeline assembly (`trip_read`).** It picks the requested trip (or
  fails with not-found). It lists the trip's events ordered by
  `(date_start, time_start)`. Each event shows its activities, ordered the
  same way. Each event shows only the images, files and links that no
  activity claims. Each activity shows every resource attached to it.
- **Shopping-list reset.** It clears `is_bought` on every item of one list.

Dates are day numbers and times are seconds since midnight, so
`datetime.combine` becomes `day * 86400 + second`. A duration is a whole
number of tenths of an hour, so `2.5` hours is `25`; the column holds one
decimal place. Rounding to one decimal place is done on integer seconds.

Modules:

- `Common`: option and result types, and identifiers.
- `Timeline`: the mixin's value rules, as pure functions over the five
  timeline columns.
- `TripModels`: the `Event` and `Activity` classes, whose `Save` methods
  update their columns in place, and the inheritance rule as a function.
- `Ordering`: order-preserving filtering and a stable sort by a
  `(date, time)` key. Where unset keys go is a parameter.
- `TripViews`: the database as one sequence of rows per table, and
  `TripRead`, the page as a value.
- `ShoppingModels`: the item table as an array of rows, and the `Reset`
  loop that updates it in place.

The assembly is a function of the store value. It therefore writes
nothing, and two calls on the same store give the same page.

## Model

| member | source | states |
|---|---|---|
| `Timeline.EffectiveStartAgreesWithHasTime` | _trips/models.py:17-35 | The effective start is undefined exactly when `date_start` is unset, and otherwise carries `date_start`. It is a combined date and time exactly when `has_time` holds, and then it carries `time_start`. |
| `Timeline.EffectiveEndMirrorsStart` | _trips/models.py:25-31 | The effective end is the start's three-way rule applied to the end columns. It does not depend on the start columns or the duration. |
| `Timeline.CompleteDurationIsNearestTenth` | _trips/models.py:46-59 | With all four columns set, the duration becomes a value that is never negative. It is zero when the end instant is not after the start instant. Otherwise it is within half a tenth of an hour of the span between them, with either neighbour allowed on an exact half. |
| `Timeline.RoundToTenthsIsNearest` | _trips/models.py:56-57 | Rounding seconds to one decimal place of hours lands on a tenth no more than half a tenth away. A span exactly halfway between two tenths goes to the upper one. |
| `Timeline.IncompleteDurationUnchanged` | _trips/models.py:48-49 | With any of the four columns missing, recalculation leaves the whole record as it was, including a stale duration. |
| `Timeline.RecalculateIdempotent` | _trips/models.py:46-59 | Recalculation changes only the duration. Doing it twice gives the same result as doing it once. |
| `Timeline.DurationDisplayRoundTrip` | _trips/models.py:37-44 | The display is absent exactly when the duration is unset or zero. A whole number of hours is shown without a decimal point, and any other value with one. Reading the shown text back gives the duration. |
| `Timeline.RecalculatedDisplay` | _trips/models.py:37-59 | After recalculation a duration is shown exactly when the end is at least half a tenth of an hour after the start. An end at or before the start shows nothing. |
| `Timeline.DurationExamples` | _trips/models.py:37-59 | Worked values: 09:00 to 11:30 gives 2.5 shown as "2.5h". An end before the start gives 0, which is not shown. Three hours show as "3h". |
| `TripModels.SavedActivityInheritsStartOnly` | _trips/models.py:114-122 | Saving an activity keeps a `date_start` that is set. If it is unset, the parent event's `date_start` fills it. No other column is inherited. The duration is computed from the record after inheritance. |
| `TripModels.SavedActivityIdempotent` | _trips/models.py:114-122 | Saving an activity twice stores the same columns as saving it once. |
| `TripModels.InheritExamples` | _trips/models.py:115-117 | Worked values: a missing start date takes the event's; a set start date stays. |
| `TripModels.Event.constructor` | _trips/models.py:63-76 | A new event has every nullable column unset and is not optional. |
| `TripModels.Event.CalculateDuration` | _trips/models.py:46-59 | The event's duration becomes the recalculated duration. No other column changes. |
| `TripModels.Event.Save` | _trips/models.py:78-80 | Saving an event recomputes its duration and changes nothing else. |
| `TripModels.Activity.constructor` | _trips/models.py:85-110 | A new activity of a given event has every nullable column unset. |
| `TripModels.Activity.CalculateDuration` | _trips/models.py:46-59 | The activity's duration becomes the recalculated duration. No other column changes. |
| `TripModels.Activity.Save` | _trips/models.py:114-122 | The activity's columns become the inherit-then-recalculate result, using the parent event's start date. A start date that was set is never overwritten. Only `date_start` and `duration` may change. |
| `Ordering.KeyLeTotalPreorder` | _trips/views.py:19 | The `(date_start, time_start)` order is total and transitive, whichever end unset values sort to. |
| `Ordering.KeyLeIsChronological` | _trips/views.py:19 | For keys with both columns set, the key order is the order of the combined instants. |
| `Ordering.FilterCount` | _trips/views.py:19-24 | A query filter keeps every occurrence of each row that matches and no row that does not. |
| `Ordering.FilterMembership` | _trips/views.py:19-24 | A row is in the filtered result exactly when it is stored and matches. |
| `Ordering.SortByCorrect` | _trips/views.py:19 | Ordering yields the same rows, each as often as before, in non-decreasing key order. |
| `Ordering.SortedPermutationsShareKeys` | _trips/views.py:19 | Any two key-ordered arrangements of the same rows have the same length and the same `(date_start, time_start)` key at every position, however rows with equal keys are arranged. So the order the page shows is fixed except among rows whose keys are equal. |
| `Ordering.SortByKeepsSortedKeys` | _trips/views.py:19 | Ordering rows that are already in key order keeps the key at every position. It claims nothing about where rows with equal keys end up. |
| `TripViews.FindTripCorrect` | _trips/views.py:6 | The trip lookup succeeds exactly when some trip has the key, and what it returns has that key. |
| `TripViews.TripReadEvents` | _trips/views.py:5-33 | The page is not-found exactly when no trip has the key. Otherwise it shows that trip. Its events are exactly the trip's event rows, each as often as stored, none added or dropped, in non-decreasing `(date_start, time_start)` order. |
| `TripViews.TripReadChronological` | _trips/views.py:19 | Events whose start date and time are both set appear in order of their effective start instant. |
| `TripViews.TripReadNestsEventViews` | _trips/views.py:19-28 | Every event on the page is built by the per-event view: filtered resources and ordered activities. |
| `TripViews.EventActivitiesSelectedAndOrdered` | _trips/views.py:27 | An event's activities are exactly the activity rows that point at it, each as often as stored, in non-decreasing `(date_start, time_start)` order. |
| `TripViews.EventResourcesUnclaimed` | _trips/views.py:22-24 | At event level, the images, files and links are exactly that event's resources whose `activity` is null. |
| `TripViews.ActivityResourcesClaimed` | _trips/views.py:10-14 | At activity level, the resources are all resources whose `activity` is that activity, unfiltered. |
| `TripViews.EventAndActivityResourcesDisjoint` | _trips/views.py:10-24 | No resource appears both in an event's list and in one of its activities' lists. This holds for images, files and links. |
| `TripViews.ResourceSplitExample` | _trips/views.py:10-24 | Worked values: an event with two images, one of them also claimed by its activity, shows one image itself and the other at the activity. |
| `ShoppingModels.Reset` | _shopping/models.py:53-56 | After the loop, the item table equals the reset of the old table. |
| `ShoppingModels.ResetItemsPointwise` | _shopping/models.py:53-56 | A reset keeps the table's length and resets each row on its own. |
| `ShoppingModels.ResetItemsEffect` | _shopping/models.py:53-56 | After a reset every item of the list is unbought and every other list's row is untouched. No row is added, removed or moved, and no column other than `is_bought` changes. |
| `ShoppingModels.ResetItemsIdempotent` | _shopping/models.py:53-56 | Resetting twice gives the same table as resetting once. |
| `ShoppingModels.ResetRestoresCreationDefault` | _shopping/models.py:103 | A reset row is unbought, like a newly created one, and a newly created row is a fixed point of reset. |

## Left out

- Persistence is not modelled. This covers `super().save()`, `item.save()`, `prefetch_related`/`Prefetch`, cascade deletes and UUID generation. `Save` stops at the in-memory columns; the store is a value holding rows with the same columns.
- Where unset dates and times sort is left to the database backend. It is the `nullsFirst` parameter, not a fixed choice.
- `TripViews.TripReadEvents`: does not fix the relative order of events with equal keys, because the database gives none. The model's sort happens to be stable, but no stated property depends on that. `Ordering.SortedPermutationsShareKeys` shows that every key-ordered arrangement lists the same keys at every position.
- `TripViews.EventActivitiesSelectedAndOrdered`: same as above for activities with equal keys.
- Resource lists keep the store's order. The source requests no ordering for them, so no order is claimed.
- `Timeline.CompleteDurationIsNearestTenth`: says only "a nearest tenth". On a span exactly halfway between two tenths it allows either neighbour.
- `Timeline.RoundToTenthsIsNearest`: rounds a span exactly halfway between two tenths up, which the source does not always do. The source's `round(hours, 1)` works on a binary float, so such spans can go down: 540 seconds is 0.15 hours and rounds to 0.1, where the model gives 2 tenths.
- Times are whole seconds. Microseconds in a time column are not modelled.
- `Timeline.DurationDisplayRoundTrip`: covers plain decimal text only. The exponent notation Python would print for very large float durations is not modelled, and neither is the ten-digit limit of the duration column.
- The source tests `date_start`, `time_start` and `duration` by truthiness. Dates and times are always truthy, so this is modelled as "is set", the same as `has_time`'s `is not None`. A zero duration is falsy, so it is not shown.
- An activity without a parent event is not modelled. The foreign key is required, and reading it unset raises in the source. `Activity.event` is a non-null reference.
- `trip_list` is an empty stub and is not modelled. Rendering, routing, authentication and the remaining CRUD views and schema-only models are outside this model.

`order_by('date_start', 'time_start')` fixes neither where unset dates sort nor how rows with equal keys are ordered; the model follows the code.
