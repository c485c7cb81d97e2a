/**
 The list rebuild performed when the calendar service answers a request: the
 incoming events are filtered by content type and time window, truncated to
 the event limit while every match is still counted, and the earliest instant
 at which a kept event leaves the time window is recorded as the list's expiry.

 `Step` and `ScanEvents` follow the source loop as written. `Matches`, `Take`
 and `MinExpiry` say the same thing declaratively, and `ScanIsReference`
 proves the two agree.
 */
module EventFilter {
  import opened EventData

  /** The model's settings that shape a rebuild. */
  datatype Criteria = Criteria(mode: FilterMode, content: ContentType, limit: int, displayTime: int)

  /** The content type drops all-day events (`ContentEvents`) or timed events
      (`ContentAllDay`). */
  predicate ContentAdmits(content: ContentType, e: Event): (r: bool)
    ensures e.allDay ==> (r <==> content != ContentEvents)
    ensures !e.allDay ==> (r <==> content != ContentAllDay)
  {
    !((e.allDay && content == ContentEvents) || (!e.allDay && content == ContentAllDay))
  }

  /** The time window: all-day events always pass; timed events pass while they
      have not ended (`FilterPast`), while they have not started
      (`FilterPastAndCurrent`), or always (`FilterNone`). */
  predicate TimeAdmits(q: Criteria, now: int, e: Event): (r: bool)
    ensures e.allDay ==> r
    ensures !e.allDay ==> match q.mode
                          case FilterNone => r
                          case FilterPast => r <==> now < EffectiveEnd(e, q.displayTime)
                          case FilterPastAndCurrent => r <==> now < e.startTime
                          case OtherFilter(_) => !r
  {
    || e.allDay
    || (q.mode == FilterPast && now < EffectiveEnd(e, q.displayTime))
    || (q.mode == FilterPastAndCurrent && now < e.startTime)
    || q.mode == FilterNone
  }

  predicate Admits(q: Criteria, now: int, e: Event) {
    ContentAdmits(q.content, e) && TimeAdmits(q, now, e)
  }

  /** The instant at which a kept event stops passing the time window, for the
      two modes whose window moves with time; `None` for all-day events and the
      other modes, under which the event's verdict never changes. */
  function ExpiryKey(q: Criteria, e: Event): (r: Option<int>)
    ensures r.Some? ==> forall t :: TimeAdmits(q, t, e) <==> t < r.value
    ensures r.None? ==> forall t :: TimeAdmits(q, t, e) == TimeAdmits(q, 0, e)
  {
    if e.allDay then None
    else if q.mode == FilterPast then Some(EffectiveEnd(e, q.displayTime))
    else if q.mode == FilterPastAndCurrent then Some(e.startTime)
    else None
  }

  // ---------------------------------------------------------------------------
  // Reference definitions
  // ---------------------------------------------------------------------------

  /** The admitted events, in their incoming order. */
  function Matches(q: Criteria, now: int, es: seq<Event>): (r: seq<Event>)
    ensures |r| <= |es|
    ensures forall e :: e in r <==> e in es && Admits(q, now, e)
  {
    if |es| == 0 then []
    else (if Admits(q, now, es[0]) then [es[0]] else []) + Matches(q, now, es[1..])
  }

  /** The first `n` elements of `s` (all of them when `s` is shorter; none when
      `n` is not positive). */
  function Take<T>(s: seq<T>, n: int): (r: seq<T>)
    ensures |r| == (if n <= 0 then 0 else Min(|s|, n))
    ensures r == s[..|r|]
  {
    if n <= 0 then [] else if |s| <= n then s else s[..n]
  }

  /** The earlier of two optional instants, an absent one losing. */
  function Earlier(a: Option<int>, b: Option<int>): Option<int> {
    if a.None? then b
    else if b.None? then a
    else if b.value < a.value then b
    else a
  }

  /** The least expiry key over `s`, `None` when no element has one. */
  function MinExpiry(q: Criteria, s: seq<Event>): Option<int> {
    if |s| == 0 then None
    else Earlier(MinExpiry(q, s[..|s| - 1]), ExpiryKey(q, s[|s| - 1]))
  }

  // ---------------------------------------------------------------------------
  // The loop as written
  // ---------------------------------------------------------------------------

  /** What the loop has built so far: the kept events, the number of matches
      and the running expiry. */
  datatype Scan = Scan(kept: seq<Event>, total: nat, expiry: Option<int>)

  /** One pass of the loop body: an admitted event is always counted, and is
      appended, moving the running expiry to its key when that is earlier,
      only while the list is under the limit. */
  function Step(q: Criteria, now: int, acc: Scan, e: Event): (r: Scan)
    ensures r.total == acc.total + (if Admits(q, now, e) then 1 else 0)
    ensures Admits(q, now, e) && |acc.kept| < q.limit ==>
              r.kept == acc.kept + [e] && r.expiry == Earlier(acc.expiry, ExpiryKey(q, e))
    ensures !(Admits(q, now, e) && |acc.kept| < q.limit) ==> r.kept == acc.kept && r.expiry == acc.expiry
  {
    if !ContentAdmits(q.content, e) then acc
    else if !TimeAdmits(q, now, e) then acc
    else if |acc.kept| < q.limit then
      var endTime := EffectiveEnd(e, q.displayTime);
      var expiry :=
        if e.allDay then acc.expiry
        else if q.mode == FilterPast && (acc.expiry.None? || acc.expiry.value > endTime) then Some(endTime)
        else if q.mode == FilterPastAndCurrent && (acc.expiry.None? || acc.expiry.value > e.startTime) then Some(e.startTime)
        else acc.expiry;
      Scan(acc.kept + [e], acc.total + 1, expiry)
    else Scan(acc.kept, acc.total + 1, acc.expiry)
  }

  /** The loop's state after it has visited every event of `es`, in order:
      at most one count per event, a list no longer than the count and never
      over a positive limit, holding only incoming events. */
  function ScanEvents(q: Criteria, now: int, es: seq<Event>): (r: Scan)
    ensures r.total <= |es|
    ensures |r.kept| <= r.total && (q.limit >= 0 ==> |r.kept| <= q.limit)
    ensures forall x :: x in r.kept ==> x in es
  {
    if |es| == 0 then Scan([], 0, None)
    else Step(q, now, ScanEvents(q, now, es[..|es| - 1]), es[|es| - 1])
  }

  /** The rebuilt list, the count of all matches and the list's expiry. */
  datatype Rebuilt = Rebuilt(events: seq<Event>, totalCount: nat, expiry: Option<int>)

  /** The whole rebuild: the loop, then the expiry fallback. */
  function Rebuild(q: Criteria, now: int, startDate: Option<int>, endDate: Option<int>, es: seq<Event>): (r: Rebuilt)
    ensures r.events == Take(Matches(q, now, es), q.limit)
    ensures r.totalCount == |Matches(q, now, es)|
    ensures r.expiry == if MinExpiry(q, r.events).Some? then MinExpiry(q, r.events)
                        else ExpiryFallback(startDate, endDate)
  {
    var s := ScanEvents(q, now, es);
    ScanIsReference(q, now, es);
    Rebuilt(s.kept, s.total, if s.expiry.Some? then s.expiry else ExpiryFallback(startDate, endDate))
  }

  // ---------------------------------------------------------------------------
  // The loop computes the reference
  // ---------------------------------------------------------------------------

  lemma {:induction false} MatchesAppend(q: Criteria, now: int, es: seq<Event>, x: Event)
    ensures Matches(q, now, es + [x]) == Matches(q, now, es) + (if Admits(q, now, x) then [x] else [])
    decreases |es|
  {
    if |es| == 0 {
      assert es + [x] == [x];
      assert Matches(q, now, [x][1..]) == [];
    } else {
      assert (es + [x])[0] == es[0];
      assert (es + [x])[1..] == es[1..] + [x];
      MatchesAppend(q, now, es[1..], x);
    }
  }

  /** The running expiry update of the loop body is `Earlier` with the event's
      key. */
  lemma StepExpiry(q: Criteria, e: Event, a: Option<int>)
    ensures Earlier(a, ExpiryKey(q, e)) ==
              if e.allDay then a
              else if q.mode == FilterPast && (a.None? || a.value > EffectiveEnd(e, q.displayTime)) then Some(EffectiveEnd(e, q.displayTime))
              else if q.mode == FilterPastAndCurrent && (a.None? || a.value > e.startTime) then Some(e.startTime)
              else a
  {
  }

  /** Appending one element to a truncated list: it joins the prefix exactly
      when the prefix is still shorter than the limit. */
  lemma TakeAppend<T>(m: seq<T>, x: T, n: int)
    ensures |Take(m, n)| < n ==> Take(m + [x], n) == Take(m, n) + [x]
    ensures |Take(m, n)| >= n ==> Take(m + [x], n) == Take(m, n)
  {
  }

  /** One loop pass applied to the reference state for `m` yields the reference
      state for `m` extended by the admitted event `x`. */
  lemma StepOnReference(q: Criteria, now: int, m: seq<Event>, x: Event)
    requires Admits(q, now, x)
    ensures var kept := Take(m, q.limit);
            var kept' := Take(m + [x], q.limit);
            Step(q, now, Scan(kept, |m|, MinExpiry(q, kept)), x) == Scan(kept', |m| + 1, MinExpiry(q, kept'))
  {
    var kept := Take(m, q.limit);
    TakeAppend(m, x, q.limit);
    if |kept| < q.limit {
      assert (kept + [x])[..|kept|] == kept;
      StepExpiry(q, x, MinExpiry(q, kept));
    }
  }

  lemma {:induction false} ScanIsReference(q: Criteria, now: int, es: seq<Event>)
    ensures var kept := Take(Matches(q, now, es), q.limit);
            ScanEvents(q, now, es) == Scan(kept, |Matches(q, now, es)|, MinExpiry(q, kept))
    decreases |es|
  {
    if |es| != 0 {
      var p, x := es[..|es| - 1], es[|es| - 1];
      assert es == p + [x];
      ScanIsReference(q, now, p);
      MatchesAppend(q, now, p, x);
      var m := Matches(q, now, p);
      var kept := Take(m, q.limit);
      assert ScanEvents(q, now, es) == Step(q, now, Scan(kept, |m|, MinExpiry(q, kept)), x);
      if Admits(q, now, x) {
        StepOnReference(q, now, m, x);
      } else {
        assert Matches(q, now, es) == m;
      }
    }
  }
}
