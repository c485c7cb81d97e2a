/**
 The values the calendar events model works with: one calendar event as the
 calendar service returns it, the filter mode and content type a client picks,
 and the time arithmetic the model needs.

 Instants are integers counting milliseconds since the epoch (UTC). A date
 that may be unset or unparseable (the model's start date, end date, expiry
 and creation dates) is an `Option<int>`, `None` standing for an invalid date.
 */
module EventData {

  datatype Option<+T> = None | Some(value: T)

  const MsPerSecond: int := 1000
  const MsPerDay: int := 86_400_000

  /** The event limit a freshly created model starts with. */
  const DefaultEventLimit: int := 1000

  function Min(a: int, b: int): int {
    if a < b then a else b
  }

  /** One calendar event. The start and end instants are the parsed forms of
      the ISO 8601 strings the calendar service sends. */
  datatype Event = Event(
    displayLabel: string,
    description: string,
    startTime: int,
    endTime: int,
    recurrenceId: string,
    allDay: bool,
    location: string,
    calendarUid: string,
    uniqueId: string,
    color: string)

  /** Which events the time filter keeps. The setter takes any integer, so a
      code outside the three named modes is kept as `OtherFilter`. By
      convention `code` is never the code of a named mode, so that datatype
      equality agrees with the source's integer comparison; the type does not
      enforce this. */
  datatype FilterMode = FilterNone | FilterPast | FilterPastAndCurrent | OtherFilter(code: int)

  /** Which kind of event the list holds. A code outside the three named kinds
      is kept as `OtherContent`; it drops nothing, like `ContentAll`. As with
      `OtherFilter`, `code` is never the code of a named kind by convention;
      the type does not enforce this. */
  datatype ContentType = ContentAll | ContentEvents | ContentAllDay | OtherContent(code: int)

  /** The instant an event stops being shown: its start plus the display-time
      override (in seconds) when one is set, its own end otherwise. */
  function EffectiveEnd(e: Event, displayTime: int): (r: int)
    ensures displayTime > 0 ==> e.startTime < r && r - e.startTime == displayTime * MsPerSecond
    ensures displayTime <= 0 ==> r == e.endTime
  {
    if displayTime > 0 then e.startTime + displayTime * MsPerSecond else e.endTime
  }

  /** One millisecond past the first midnight after `t`: the day after `t`'s
      day, at 00:00:00.001. */
  function NextDayAfter(t: int): (r: int)
    ensures (r - 1) % MsPerDay == 0
    ensures t < r - 1 <= t + MsPerDay
  {
    (t / MsPerDay + 1) * MsPerDay + 1
  }

  /** The expiry used when no kept event supplies one: the end date when it is
      valid, else the start of the day after the start date (plus 1 ms), else
      nothing valid at all. */
  function ExpiryFallback(startDate: Option<int>, endDate: Option<int>): (r: Option<int>)
    ensures r.Some? <==> startDate.Some? || endDate.Some?
    ensures endDate.Some? ==> r == endDate
    ensures endDate.None? && startDate.Some? ==>
              (r.value - 1) % MsPerDay == 0 && startDate.value < r.value - 1 <= startDate.value + MsPerDay
  {
    if endDate.Some? then endDate
    else if startDate.Some? then Some(NextDayAfter(startDate.value))
    else None
  }
}
