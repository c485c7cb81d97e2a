# Calendar events list model

A Dafny model of the events list model of the Nemo QML calendar plugin
(`NemoCalendarEventsModel`). The model fetches events from the calendar
service. When a reply arrives it rebuilds its list:

- it drops all-day or timed events according to the content type;
- it keeps the events that are inside the time window of the filter mode;
- it stops adding events at the event limit but still counts every match;
- it records an expiry instant after which the list is out of date.

Around that rebuild sit a few small state rules:

- each property setter does nothing when the value is unchanged;
- the event limit must be positive;
- `count` is capped by the limit;
- after a setter changes a value, the update timer runs exactly when the start
  date is valid; a change to a watched file starts the timer unconditionally;
- a reply to a transaction other than the current one is dropped. Acknowledgements are
  not ordered against later requests, so a late acknowledgement can bring an
  older request's reply back in (`LateAcknowledgementReopensStaleReply`).

Instants are integers counting milliseconds since the epoch. A date that may be
invalid (start date, end date, expiry, creation date) is an `Option<int>`.

Modules:

- `EventData` (`event_data.dfy`): the event record, filter modes, content
  types, the effective end of an event and the expiry fallback.
- `EventFilter` (`event_filter.dfy`): two descriptions of the rebuild, proved
  equal by `ScanIsReference`.
  - `Step`/`ScanEvents` follow the loop as written, one event at a time.
  - `Matches`/`Take`/`MinExpiry` say the same thing declaratively: the admitted
    events, the first `limit` of them, and the least expiry key.
- `RebuildProperties` (`rebuild_properties.dfy`): what a rebuild guarantees,
  namely order, filters, counts and expiry. When a kept timed event supplies
  the expiry (under `FilterPast` or `FilterPastAndCurrent`), the expiry is
  exactly the first instant at which a rebuild would produce a different list
  (`RebuildStableUntilExpiry`, `RebuildChangesAtExpiry`). When the expiry is
  the fallback date instead (`FilterNone`, an unknown mode, or only all-day
  events kept), the list would come out the same at every later instant.
  This stability covers the list and the expiry but not `totalCount`. Matches
  beyond the limit take no part in the expiry, so one of them can leave the
  window first, and the published total count can then go stale before the
  expiry (`TotalCountCanChangeBeforeExpiry`).
- `EventsModel` (`events_model.dfy`): the model state, its setters, the
  request/reply cycle and the invariant `Valid` that every operation keeps.

Note on the empty-reply guard: an empty reply that arrives while the list is
already empty is ignored entirely. `EmptyReplySkipKeepsList` shows that the
skip loses no list content and no count. It does leave the expiry and the
creation date as they were. So after the start or end date changes and no
events exist in either range, the expiry still reflects the old range.

## Model

| member | source | states |
|---|---|---|
| EventData.NextDayAfter | lightweight/calendareventsmodel/calendareventsmodel.cpp:324-325 | The fallback instant is 1 ms past a midnight, and that midnight is the first one strictly after the start date |
| EventData.ExpiryFallback | lightweight/calendareventsmodel/calendareventsmodel.cpp:320-327 | The fallback expiry is the end date when that is valid, else the day after the start date at 00:00:00.001, and it is invalid only when both dates are invalid |
| EventData.EffectiveEnd | lightweight/calendareventsmodel/calendareventsmodel.cpp:291-297 | An event's end for the time window is its start plus the display time (in seconds) when that is positive, and its own end otherwise |
| EventFilter.ContentAdmits | lightweight/calendareventsmodel/calendareventsmodel.cpp:286-289 | An all-day event passes the content test unless the type is ContentEvents; a timed event passes unless it is ContentAllDay |
| EventFilter.TimeAdmits | lightweight/calendareventsmodel/calendareventsmodel.cpp:299-302 | An all-day event always passes the time window. A timed event always passes under FilterNone. Under FilterPast it passes exactly while now is before its effective end, and under FilterPastAndCurrent exactly while now is before its start. It never passes under an unknown mode |
| EventFilter.ExpiryKey | lightweight/calendareventsmodel/calendareventsmodel.cpp:305-310 | When an event has a key, it passes the time window at exactly the instants before the key. When it has none (an all-day event, or a mode whose window does not move), its verdict is the same at every instant |
| EventFilter.Matches | lightweight/calendareventsmodel/calendareventsmodel.cpp:285-302 | An event is among the matches exactly when it is incoming and passes both the content-type and the time-window test |
| EventFilter.Step | lightweight/calendareventsmodel/calendareventsmodel.cpp:285-314 | One loop pass: an event that passes both tests is always counted. It is appended, and the running expiry moves to its key when that is earlier, only while the list is under the limit. Any other event changes nothing |
| EventFilter.ScanEvents | lightweight/calendareventsmodel/calendareventsmodel.cpp:285-314 | After the whole reply, the loop has counted each event at most once. Its list is no longer than the count and, for a non-negative limit, than the limit, and it holds only incoming events |
| EventFilter.Rebuild | lightweight/calendareventsmodel/calendareventsmodel.cpp:284-328 | The rebuilt list is the first `limit` matches, the total count is the number of all matches, and the expiry is the least expiry key of the kept events or else the fallback |
| EventFilter.ScanIsReference | lightweight/calendareventsmodel/calendareventsmodel.cpp:285-315 | The loop as written (append while under the limit, always count, update the running expiry) produces exactly the reference list, count and least key |
| RebuildProperties.RebuildKeepsOrder | lightweight/calendareventsmodel/calendareventsmodel.cpp:281-304 | The rebuilt list is an order-preserving subsequence of the incoming list |
| RebuildProperties.RebuildKeepsAdmitted | lightweight/calendareventsmodel/calendareventsmodel.cpp:285-304 | Every kept event is an incoming event that passes the content type and the time window |
| RebuildProperties.RebuildRespectsContentType | lightweight/calendareventsmodel/calendareventsmodel.cpp:285-304 | Under ContentEvents no all-day event is kept; under ContentAllDay no timed event is kept. Below the limit, every all-day event is kept unless the type is ContentEvents. Under FilterNone, every timed event is kept unless the type is ContentAllDay. With FilterNone and a type that drops nothing, the list is the reply cut at the limit and the total count is the reply's length |
| RebuildProperties.RebuildTimeWindow | lightweight/calendareventsmodel/calendareventsmodel.cpp:291-304 | Under FilterPast a kept timed event has not reached its end, or its start plus the display time when that is set. Under FilterPastAndCurrent it has not started. An unknown mode keeps only all-day events. Conversely, below the limit every timed event the content type allows is kept when it is inside that window, and under FilterNone whatever its times |
| RebuildProperties.RebuildCounts | lightweight/calendareventsmodel/calendareventsmodel.cpp:284-313 | The list length is min(totalCount, limit) for a positive limit and zero otherwise; totalCount never exceeds the number of incoming events |
| RebuildProperties.RebuildWithoutTruncation | lightweight/calendareventsmodel/calendareventsmodel.cpp:299-304 | When the matches fit under the limit, the list holds exactly the admitted incoming events, and in particular every all-day event the content type allows, whatever the filter mode |
| RebuildProperties.RebuildLimitPrefix | lightweight/calendareventsmodel/calendareventsmodel.cpp:303-313 | The total count does not depend on the limit, and a smaller limit yields a prefix of the list a larger one yields |
| RebuildProperties.MinExpiryIsLeast | lightweight/calendareventsmodel/calendareventsmodel.cpp:305-310 | The running expiry is present exactly when some event has a key, is no later than any key, and equals one of them |
| RebuildProperties.RebuildExpiry | lightweight/calendareventsmodel/calendareventsmodel.cpp:305-328 | With a kept timed event under FilterPast or FilterPastAndCurrent, the expiry is the least effective end or start among the kept events and lies strictly after now; otherwise, and always under FilterNone, it is the fallback |
| RebuildProperties.RebuildStableUntilExpiry | lightweight/calendareventsmodel/calendareventsmodel.cpp:299-310 | At any instant from now up to the expiry, a rebuild from the same reply yields the same list and expiry; without a kept timed event this holds at every later instant |
| RebuildProperties.TotalCountCanChangeBeforeExpiry | lightweight/calendareventsmodel/calendareventsmodel.cpp:303-313 | A concrete reply (FilterPast, limit 1, ends at 100 and 50) whose total count drops from 2 to 1 at instant 60, before the expiry 100, while the list stays the same |
| RebuildProperties.RebuildChangesAtExpiry | lightweight/calendareventsmodel/calendareventsmodel.cpp:299-310 | At the expiry instant the event that supplied it has left the window, so the list would change |
| EventsModel.Initial | lightweight/calendareventsmodel/calendareventsmodel.cpp:47-56 | A new model has limit 1000, FilterNone, ContentAll, display time 0 and an empty list with count 0. Its start, end, creation and expiry dates are all invalid, its transaction id is empty, no timer runs, and it is valid |
| EventsModel.Count | lightweight/calendareventsmodel/calendareventsmodel.cpp:91-94 | count is the smaller of the list length and the event limit |
| EventsModel.RestartUpdateTimer | lightweight/calendareventsmodel/calendareventsmodel.cpp:357-363 | The timer runs afterwards exactly when the start date is valid; nothing else changes |
| EventsModel.SetEventLimit | lightweight/calendareventsmodel/calendareventsmodel.cpp:116-124 | A limit that is not positive, or is unchanged, leaves the state alone; otherwise only the limit and the timer change; a positive limit stays positive |
| EventsModel.SetEventDisplayTime | lightweight/calendareventsmodel/calendareventsmodel.cpp:131-140 | An unchanged value is a no-op; otherwise only the display time and the timer change, and the timer follows the start-date rule |
| EventsModel.SetStartDate | lightweight/calendareventsmodel/calendareventsmodel.cpp:147-156 | An unchanged value is a no-op; otherwise only the start date and the timer change, and the timer runs exactly when the new start date is valid |
| EventsModel.SetEndDate | lightweight/calendareventsmodel/calendareventsmodel.cpp:163-172 | An unchanged value is a no-op; otherwise only the end date and the timer change, and the timer follows the start-date rule |
| EventsModel.SetFilterMode | lightweight/calendareventsmodel/calendareventsmodel.cpp:179-187 | An unchanged value is a no-op; otherwise only the filter mode and the timer change, and the timer follows the start-date rule |
| EventsModel.SetContentType | lightweight/calendareventsmodel/calendareventsmodel.cpp:195-203 | An unchanged value is a no-op; otherwise only the content type and the timer change, and the timer follows the start-date rule |
| EventsModel.UpdateTimerFired | lightweight/calendareventsmodel/calendareventsmodel.cpp:246-255 | Firing clears the transaction id and requests the range from the start date to the end date, or to the start date when the end date is invalid |
| EventsModel.FileChanged | lightweight/calendareventsmodel/calendareventsmodel.cpp:87-88 | A change to a watched file starts the timer with no start-date test and changes nothing else |
| EventsModel.FileChangeCanRequestInvalidRange | lightweight/calendareventsmodel/calendareventsmodel.cpp:88-251 | With both dates invalid, a file change starts the timer and the request it leads to has neither a valid start nor a valid end |
| EventsModel.UpdateFinished | lightweight/calendareventsmodel/calendareventsmodel.cpp:257-266 | A successful acknowledgement records its transaction id; a failed one changes nothing |
| EventsModel.Accept | lightweight/calendareventsmodel/calendareventsmodel.cpp:278-328 | The accepted state holds the first `limit` matches of the reply and the count of all matches. Its expiry is the least expiry key among the kept events, or else the fallback date, and its creation date is the given instant. Every setting and the transaction id stay as they were |
| EventsModel.AcknowledgedReplyIsAccepted | lightweight/calendareventsmodel/calendareventsmodel.cpp:257-276 | After a successful acknowledgement, a non-empty reply carrying that transaction id passes the guard; the list becomes the first `limit` matches of the reply, the total count the number of all matches, and the stored expiry the rebuild's expiry |
| EventsModel.GetEventsResult | lightweight/calendareventsmodel/calendareventsmodel.cpp:268-338 | A reply to another transaction, or an empty reply to an empty list, changes nothing. Otherwise only the list, the counts and the dates change, the list is an ordered subsequence of the reply of length min(totalCount, limit), and validity is kept. The stored expiry is the least expiry key of the kept events, strictly after now, when some kept event has one, and the fallback date otherwise |
| EventsModel.ValidIsInvariant | lightweight/calendareventsmodel/calendareventsmodel.cpp:116-203 | Every setter, a file change, the timer firing and the acknowledgement keep a valid state valid, so the limit stays positive and the list length stays consistent with the match count |
| EventsModel.FiredTimerDropsLateReply | lightweight/calendareventsmodel/calendareventsmodel.cpp:246-276 | Once the timer has fired, a late reply carrying the previous non-empty transaction id is ignored |
| EventsModel.LateAcknowledgementReopensStaleReply | lightweight/calendareventsmodel/calendareventsmodel.cpp:246-276 | If an older request's acknowledgement arrives after the timer fires again, that request's reply is accepted and rebuilt from. If two acknowledgements arrive in swapped order, the later request's reply is dropped |
| EventsModel.EmptyReplySkipKeepsList | lightweight/calendareventsmodel/calendareventsmodel.cpp:274-284 | Skipping an empty reply while the list is empty yields the same list and count a rebuild would have |
| EventsModel.CountAfterRebuild | lightweight/calendareventsmodel/calendareventsmodel.cpp:91-124 | Right after a rebuild count equals the list length. After the limit is lowered, count equals the length a rebuild from the same reply would give |

## Left out

- D-Bus calls and pending-call watchers: a request is reduced to the range it asks for (`EventsRequest`). An acknowledgement is an optional transaction id (`UpdateFinished`). A reply is a transaction id plus an event list (`GetEventsResult`).
- `QFileSystemWatcher`, creation of the settings file, and `trackMkcal`: filesystem I/O. Which paths are watched is not modelled; a change notification is the operation `FileChanged`.
- Signal emission, including the `countChanged`/`totalCountChanged` comparisons, and the 500 ms debounce interval. The model records only whether the timer is running.
- `rowCount`, `data` and `roleNames`: Qt model/view plumbing with no logic beyond indexing the list.
- ISO 8601 parsing of an event's start and end. Every event time is taken to parse to a valid instant. An event with an unparseable time, and the way Qt compares invalid date-times, are not modelled.
- `EventData.NextDayAfter`: computes the next day in UTC, so it does not model local time zones or daylight-saving transitions, which Qt's calendar arithmetic follows.
- The two clock readings, for the time window (line 282) and the creation date (line 317), are parameters `now` and `createdAt`.
- The numeric values of the filter-mode and content-type enumerations: the header that declares them is not part of this model. A code that names none of the three known values becomes `OtherFilter`/`OtherContent`; the model relies on the convention that such a `code` is never a named value's code, which the types do not enforce.
- src/plugin.cpp: QML type registration, and `QtDate.daysTo`/`addDays`, which forward to `QDate` and contain no logic of their own.
