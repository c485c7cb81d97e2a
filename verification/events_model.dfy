/**
 The events list model's state and the operations that change it: the guarded
 property setters, the update-timer rule they share, the request/reply cycle
 with its transaction-id guard, and the `count` property.

 Signals, the 500 ms debounce interval and the D-Bus traffic itself are not
 part of the state: a request is represented by the range it asks for, a
 reply by the transaction id and event list it carries.
 */
module EventsModel {
  import opened EventData
  import opened EventFilter
  import opened RebuildProperties

  datatype ModelState = ModelState(
    transactionId: string,
    events: seq<Event>,
    totalCount: nat,
    creationDate: Option<int>,
    expiryDate: Option<int>,
    filterMode: FilterMode,
    contentType: ContentType,
    eventLimit: int,
    eventDisplayTime: int,
    startDate: Option<int>,
    endDate: Option<int>,
    timerActive: bool)

  /** The range a request asks the calendar service for. */
  datatype EventsRequest = EventsRequest(start: Option<int>, end: Option<int>)

  /** What every reachable state satisfies: the limit is positive, and the list
      is never longer than the match count and is empty only when nothing
      matched. (The timer is deliberately absent: a file change starts it
      whatever the start date, see `FileChanged`.) */
  predicate Valid(s: ModelState) {
    && s.eventLimit > 0
    && |s.events| <= s.totalCount
    && (s.totalCount > 0 ==> |s.events| > 0)
  }

  function CriteriaOf(s: ModelState): Criteria {
    Criteria(s.filterMode, s.contentType, s.eventLimit, s.eventDisplayTime)
  }

  /** A freshly constructed model. */
  function Initial(): (s: ModelState)
    ensures Valid(s)
    ensures s.eventLimit == DefaultEventLimit && s.filterMode == FilterNone && s.contentType == ContentAll
    ensures s.events == [] && s.totalCount == 0 && s.eventDisplayTime == 0
    ensures s.startDate.None? && s.endDate.None? && !s.timerActive
    ensures s.creationDate.None? && s.expiryDate.None? && s.transactionId == ""
  {
    ModelState("", [], 0, None, None, FilterNone, ContentAll, DefaultEventLimit, 0, None, None, false)
  }

  /** The number of rows the model reports: the list length, but never more
      than the current limit (which may have been lowered since the list was
      built). */
  function Count(s: ModelState): (r: int)
    ensures r <= |s.events| && r <= s.eventLimit
    ensures r == |s.events| || r == s.eventLimit
    ensures Valid(s) ==> 0 < r || s.events == []
  {
    Min(|s.events|, s.eventLimit)
  }

  // ---------------------------------------------------------------------------
  // Setters
  // ---------------------------------------------------------------------------

  /** After a setting changes, the update timer runs exactly when the start date
      is valid. */
  function RestartUpdateTimer(s: ModelState): (r: ModelState)
    ensures r.timerActive <==> s.startDate.Some?
    ensures r.(timerActive := s.timerActive) == s
  {
    s.(timerActive := s.startDate.Some?)
  }

  /** A setter that changed something left the timer running exactly when the
      start date is valid. */
  predicate TimerRule(s: ModelState, r: ModelState) {
    r == s || (r.timerActive <==> r.startDate.Some?)
  }

  function SetEventLimit(s: ModelState, limit: int): (r: ModelState)
    ensures limit <= 0 || limit == s.eventLimit ==> r == s
    ensures limit > 0 ==> r.eventLimit == limit
    ensures r.(eventLimit := s.eventLimit, timerActive := s.timerActive) == s
    ensures s.eventLimit > 0 ==> r.eventLimit > 0
    ensures TimerRule(s, r)
  {
    if s.eventLimit == limit || limit <= 0 then s
    else RestartUpdateTimer(s.(eventLimit := limit))
  }

  function SetEventDisplayTime(s: ModelState, seconds: int): (r: ModelState)
    ensures s.eventDisplayTime == seconds ==> r == s
    ensures r.eventDisplayTime == seconds
    ensures r.(eventDisplayTime := s.eventDisplayTime, timerActive := s.timerActive) == s
    ensures TimerRule(s, r)
  {
    if s.eventDisplayTime == seconds then s
    else RestartUpdateTimer(s.(eventDisplayTime := seconds))
  }

  function SetStartDate(s: ModelState, startDate: Option<int>): (r: ModelState)
    ensures s.startDate == startDate ==> r == s
    ensures r.startDate == startDate
    ensures r.(startDate := s.startDate, timerActive := s.timerActive) == s
    ensures TimerRule(s, r)
  {
    if s.startDate == startDate then s
    else RestartUpdateTimer(s.(startDate := startDate))
  }

  function SetEndDate(s: ModelState, endDate: Option<int>): (r: ModelState)
    ensures s.endDate == endDate ==> r == s
    ensures r.endDate == endDate
    ensures r.(endDate := s.endDate, timerActive := s.timerActive) == s
    ensures TimerRule(s, r)
  {
    if s.endDate == endDate then s
    else RestartUpdateTimer(s.(endDate := endDate))
  }

  function SetFilterMode(s: ModelState, mode: FilterMode): (r: ModelState)
    ensures s.filterMode == mode ==> r == s
    ensures r.filterMode == mode
    ensures r.(filterMode := s.filterMode, timerActive := s.timerActive) == s
    ensures TimerRule(s, r)
  {
    if s.filterMode == mode then s
    else RestartUpdateTimer(s.(filterMode := mode))
  }

  function SetContentType(s: ModelState, contentType: ContentType): (r: ModelState)
    ensures s.contentType == contentType ==> r == s
    ensures r.contentType == contentType
    ensures r.(contentType := s.contentType, timerActive := s.timerActive) == s
    ensures TimerRule(s, r)
  {
    if s.contentType == contentType then s
    else RestartUpdateTimer(s.(contentType := contentType))
  }

  // ---------------------------------------------------------------------------
  // Request and reply
  // ---------------------------------------------------------------------------

  /** A watched file (the settings file or the calendar database) changed: the
      debounce timer is started with no test of the start date, and nothing
      else changes. */
  function FileChanged(s: ModelState): (r: ModelState)
    ensures r.timerActive
    ensures r.(timerActive := s.timerActive) == s
  {
    s.(timerActive := true)
  }

  /** The debounce timer fires: the outstanding transaction is forgotten and a
      request goes out for the start date up to the end date, or up to the
      start date when the end date is invalid. */
  function UpdateTimerFired(s: ModelState): (r: (ModelState, EventsRequest))
    ensures r.0 == s.(transactionId := "", timerActive := false)
    ensures r.1.start == s.startDate
    ensures s.endDate.Some? ==> r.1.end == s.endDate
    ensures s.endDate.None? ==> r.1.end == s.startDate
  {
    (s.(transactionId := "", timerActive := false),
     EventsRequest(s.startDate, if s.endDate.Some? then s.endDate else s.startDate))
  }

  /** The service acknowledges a request with a transaction id, or fails (and
      nothing changes). */
  function UpdateFinished(s: ModelState, reply: Option<string>): (r: ModelState)
    ensures reply.Some? ==> r == s.(transactionId := reply.value)
    ensures reply.None? ==> r == s
  {
    match reply
    case Some(id) => s.(transactionId := id)
    case None => s
  }

  /** The state after the list has been rebuilt from a reply: the first
      `limit` matches, the count of all of them, the least expiry key among the
      kept events or else the fallback date, and `createdAt` as the creation
      date. Every setting and the transaction id stay as they were. */
  function Accept(s: ModelState, incoming: seq<Event>, now: int, createdAt: int): (r: ModelState)
    ensures r.events == Take(Matches(CriteriaOf(s), now, incoming), s.eventLimit)
    ensures r.totalCount == |Matches(CriteriaOf(s), now, incoming)|
    ensures r.expiryDate == if MinExpiry(CriteriaOf(s), r.events).Some? then MinExpiry(CriteriaOf(s), r.events)
                            else ExpiryFallback(s.startDate, s.endDate)
    ensures r.creationDate == Some(createdAt)
    ensures r.(events := s.events, totalCount := s.totalCount, expiryDate := s.expiryDate,
               creationDate := s.creationDate) == s
  {
    var r := Rebuild(CriteriaOf(s), now, s.startDate, s.endDate, incoming);
    s.(events := r.events, totalCount := r.totalCount, expiryDate := r.expiry, creationDate := Some(createdAt))
  }

  /** The service delivers the events of transaction `id`. A reply to another
      transaction, or an empty reply while the list is already empty, changes
      nothing; otherwise the list, counts and dates are rebuilt and every
      setting stays as it was. `now` is the instant the time window is measured
      from and `createdAt` the instant recorded as the creation date. */
  function GetEventsResult(s: ModelState, id: string, incoming: seq<Event>, now: int, createdAt: int): (r: ModelState)
    ensures s.transactionId != id ==> r == s
    ensures s.events == [] && incoming == [] ==> r == s
    ensures s.transactionId == id && (s.events != [] || incoming != []) ==>
              && r.creationDate == Some(createdAt)
              && r.(events := s.events, totalCount := s.totalCount, expiryDate := s.expiryDate,
                    creationDate := s.creationDate) == s
              && IsSubsequence(r.events, incoming)
              && (s.eventLimit > 0 ==> |r.events| == Min(r.totalCount, s.eventLimit))
    ensures s.transactionId == id && (s.events != [] || incoming != []) ==>
              (exists e :: e in r.events && ExpiryKey(CriteriaOf(s), e).Some?) ==>
                && r.expiryDate.Some?
                && now < r.expiryDate.value
                && (forall e :: e in r.events && ExpiryKey(CriteriaOf(s), e).Some? ==>
                      r.expiryDate.value <= ExpiryKey(CriteriaOf(s), e).value)
                && (exists e :: e in r.events && ExpiryKey(CriteriaOf(s), e) == r.expiryDate)
    ensures s.transactionId == id && (s.events != [] || incoming != []) ==>
              (forall e :: e in r.events ==> ExpiryKey(CriteriaOf(s), e).None?) ==>
                r.expiryDate == ExpiryFallback(s.startDate, s.endDate)
    ensures Valid(s) ==> Valid(r)
  {
    if s.transactionId != id || (s.events == [] && incoming == []) then s
    else
      RebuildKeepsOrder(CriteriaOf(s), now, s.startDate, s.endDate, incoming);
      RebuildCounts(CriteriaOf(s), now, s.startDate, s.endDate, incoming);
      RebuildExpiry(CriteriaOf(s), now, s.startDate, s.endDate, incoming);
      Accept(s, incoming, now, createdAt)
  }

  // ---------------------------------------------------------------------------
  // Properties across operations
  // ---------------------------------------------------------------------------

  /** Every operation keeps a valid state valid. */
  lemma ValidIsInvariant(s: ModelState, limit: int, seconds: int, date: Option<int>, mode: FilterMode,
                         contentType: ContentType, reply: Option<string>)
    requires Valid(s)
    ensures Valid(SetEventLimit(s, limit)) && Valid(SetEventDisplayTime(s, seconds))
    ensures Valid(SetStartDate(s, date)) && Valid(SetEndDate(s, date))
    ensures Valid(SetFilterMode(s, mode)) && Valid(SetContentType(s, contentType))
    ensures Valid(UpdateTimerFired(s).0) && Valid(UpdateFinished(s, reply))
    ensures Valid(FileChanged(s))
  {
  }

  /** The setters keep the timer off while the start date is invalid, but a
      file change does not: from a model whose dates are both invalid, a file
      change followed by the timer firing sends a request with no valid end. */
  lemma FileChangeCanRequestInvalidRange(s: ModelState)
    requires s.startDate.None? && s.endDate.None?
    ensures FileChanged(s).timerActive
    ensures UpdateTimerFired(FileChanged(s)).1 == EventsRequest(None, None)
  {
  }

  /** After an acknowledgement, a non-empty reply carrying the acknowledged
      id is the one that gets through: the list is rebuilt from it. */
  lemma AcknowledgedReplyIsAccepted(s: ModelState, id: string, incoming: seq<Event>, now: int, createdAt: int)
    requires incoming != []
    ensures var t := UpdateFinished(s, Some(id));
            var r := GetEventsResult(t, id, incoming, now, createdAt);
            && r.creationDate == Some(createdAt)
            && r.events == Take(Matches(CriteriaOf(s), now, incoming), s.eventLimit)
            && r.totalCount == |Matches(CriteriaOf(s), now, incoming)|
            && r.expiryDate == Rebuild(CriteriaOf(s), now, s.startDate, s.endDate, incoming).expiry
  {
    var t := UpdateFinished(s, Some(id));
    assert CriteriaOf(t) == CriteriaOf(s);
  }

  /** Once the timer has fired, a late reply to the transaction that was
      outstanding before is ignored (unless it carried the empty id). */
  lemma FiredTimerDropsLateReply(s: ModelState, incoming: seq<Event>, now: int, createdAt: int)
    requires s.transactionId != ""
    ensures var t := UpdateTimerFired(s).0;
            GetEventsResult(t, s.transactionId, incoming, now, createdAt) == t
  {
  }

  /** Acknowledgements are not ordered against timer firings. When the
      acknowledgement of an older request arrives after the timer has fired
      again, it puts the old id back, and the old request's reply is rebuilt
      from. When two acknowledgements arrive in swapped order, the later-sent
      request's reply is dropped. */
  lemma LateAcknowledgementReopensStaleReply(s: ModelState, earlier: string, later: string, incoming: seq<Event>,
                                              now: int, createdAt: int)
    requires incoming != []
    ensures var t := UpdateFinished(UpdateTimerFired(s).0, Some(earlier));
            GetEventsResult(t, earlier, incoming, now, createdAt).events ==
              Take(Matches(CriteriaOf(s), now, incoming), s.eventLimit)
    ensures var t := UpdateFinished(UpdateFinished(s, Some(later)), Some(earlier));
            earlier != later ==> GetEventsResult(t, later, incoming, now, createdAt) == t
  {
    var t := UpdateFinished(UpdateTimerFired(s).0, Some(earlier));
    assert CriteriaOf(t) == CriteriaOf(s);
  }

  /** Skipping an empty reply while the list is empty loses nothing but the new
      expiry and creation date: a rebuild would have produced the same list and
      count. */
  lemma EmptyReplySkipKeepsList(s: ModelState, now: int, createdAt: int)
    requires Valid(s)
    requires s.events == []
    ensures Accept(s, [], now, createdAt).events == s.events
    ensures Accept(s, [], now, createdAt).totalCount == s.totalCount
  {
  }

  /** Right after a rebuild the limit on `count` changes nothing; after the
      limit is lowered, `count` already reports the length the list will have
      once it is rebuilt from the same reply. */
  lemma CountAfterRebuild(s: ModelState, id: string, incoming: seq<Event>, now: int, createdAt: int, limit: int)
    requires Valid(s)
    requires s.transactionId == id && (s.events != [] || incoming != [])
    ensures var r := GetEventsResult(s, id, incoming, now, createdAt);
            Count(r) == |r.events|
    ensures var r := GetEventsResult(s, id, incoming, now, createdAt);
            var lowered := SetEventLimit(r, limit);
            0 < limit <= s.eventLimit ==>
              Count(lowered) == |GetEventsResult(lowered, id, incoming, now, createdAt).events|
  {
    var r := GetEventsResult(s, id, incoming, now, createdAt);
    if 0 < limit <= s.eventLimit {
      var lowered := SetEventLimit(r, limit);
      RebuildLimitPrefix(CriteriaOf(s), limit, now, s.startDate, s.endDate, incoming);
      assert CriteriaOf(lowered) == CriteriaOf(s).(limit := limit);
    }
  }
}
