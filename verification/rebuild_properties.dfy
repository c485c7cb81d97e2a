/**
 What a rebuild guarantees about the list it produces: it keeps the incoming
 order, honours the content type and the time window, and counts every match
 while keeping at most `limit` of them. When a kept timed event supplies the
 expiry (under `FilterPast` or `FilterPastAndCurrent`), the expiry is the
 first instant at which the list would come out differently; when the expiry
 is the fallback date, the list would come out the same at every later
 instant.
 */
module RebuildProperties {
  import opened EventData
  import opened EventFilter

  // ---------------------------------------------------------------------------
  // Order
  // ---------------------------------------------------------------------------

  /** `idx` maps each position of `a` to a position of `b` holding the same
      element, strictly increasingly. */
  ghost predicate EmbedsBy<T>(a: seq<T>, b: seq<T>, idx: seq<int>) {
    && |idx| == |a|
    && (forall k :: 0 <= k < |a| ==> 0 <= idx[k] < |b| && a[k] == b[idx[k]])
    && (forall k, l :: 0 <= k < l < |a| ==> idx[k] < idx[l])
  }

  /** `a` is `b` with some elements removed and the rest in their order. */
  ghost predicate IsSubsequence<T>(a: seq<T>, b: seq<T>) {
    exists idx :: EmbedsBy(a, b, idx)
  }

  /** An embedding into the tail of `b`, shifted by one, embeds into `b`; and
      `b`'s head may be put in front on both sides. */
  lemma EmbedsInTail<T>(a: seq<T>, b: seq<T>, idx: seq<int>) returns (shifted: seq<int>)
    requires |b| > 0
    requires EmbedsBy(a, b[1..], idx)
    ensures EmbedsBy(a, b, shifted)
    ensures EmbedsBy([b[0]] + a, b, [0] + shifted)
  {
    shifted := seq(|idx|, k requires 0 <= k < |idx| => idx[k] + 1);
    forall k | 0 <= k < |a|
      ensures 0 <= shifted[k] < |b| && a[k] == b[shifted[k]]
    {
      assert b[1..][idx[k]] == b[idx[k] + 1];
    }
    var a', s' := [b[0]] + a, [0] + shifted;
    forall k | 0 < k < |a'|
      ensures 0 < s'[k] < |b| && a'[k] == b[s'[k]]
    {
      assert a'[k] == a[k - 1] && s'[k] == shifted[k - 1];
    }
    forall k, l | 0 <= k < l < |a'|
      ensures s'[k] < s'[l]
    {
      if k > 0 {
        assert s'[k] == shifted[k - 1] && s'[l] == shifted[l - 1];
      }
    }
  }

  lemma {:induction false} MatchesEmbeds(q: Criteria, now: int, es: seq<Event>) returns (idx: seq<int>)
    ensures EmbedsBy(Matches(q, now, es), es, idx)
    decreases |es|
  {
    if |es| == 0 {
      idx := [];
    } else {
      var rest := MatchesEmbeds(q, now, es[1..]);
      var shifted := EmbedsInTail(Matches(q, now, es[1..]), es, rest);
      idx := if Admits(q, now, es[0]) then [0] + shifted else shifted;
    }
  }

  /** The rebuilt list is an order-preserving subsequence of the incoming one. */
  lemma RebuildKeepsOrder(q: Criteria, now: int, startDate: Option<int>, endDate: Option<int>, es: seq<Event>)
    ensures IsSubsequence(Rebuild(q, now, startDate, endDate, es).events, es)
  {
    var r := Rebuild(q, now, startDate, endDate, es);
    var idx := MatchesEmbeds(q, now, es);
    assert EmbedsBy(r.events, es, idx[..|r.events|]);
  }

  // ---------------------------------------------------------------------------
  // Filters and counts
  // ---------------------------------------------------------------------------

  lemma TakeMembers<T>(s: seq<T>, n: int)
    ensures forall x :: x in Take(s, n) ==> x in s
  {
    var r := Take(s, n);
    forall x | x in r
      ensures x in s
    {
      var k :| 0 <= k < |r| && r[k] == x;
      assert s[k] == x;
    }
  }

  /** Kept events are incoming events that pass the content type and the time
      window. */
  lemma RebuildKeepsAdmitted(q: Criteria, now: int, startDate: Option<int>, endDate: Option<int>, es: seq<Event>)
    ensures forall e :: e in Rebuild(q, now, startDate, endDate, es).events ==> e in es && Admits(q, now, e)
  {
    TakeMembers(Matches(q, now, es), q.limit);
  }

  /** `ContentEvents` keeps no all-day event, `ContentAllDay` no timed one, and
      those are the only events the content type drops: below the limit every
      all-day event is kept unless the type is `ContentEvents`, and under
      `FilterNone` every timed event is kept unless it is `ContentAllDay`. With
      `FilterNone` and a content type that drops nothing, the list is the reply
      itself, cut at the limit. */
  lemma RebuildRespectsContentType(q: Criteria, now: int, startDate: Option<int>, endDate: Option<int>, es: seq<Event>)
    ensures q.content == ContentEvents ==> forall e :: e in Rebuild(q, now, startDate, endDate, es).events ==> !e.allDay
    ensures q.content == ContentAllDay ==> forall e :: e in Rebuild(q, now, startDate, endDate, es).events ==> e.allDay
    ensures var r := Rebuild(q, now, startDate, endDate, es);
            r.totalCount <= q.limit && q.content != ContentEvents ==>
              forall e :: e in es && e.allDay ==> e in r.events
    ensures var r := Rebuild(q, now, startDate, endDate, es);
            r.totalCount <= q.limit && q.content != ContentAllDay && q.mode == FilterNone ==>
              forall e :: e in es && !e.allDay ==> e in r.events
    ensures var r := Rebuild(q, now, startDate, endDate, es);
            (q.content == ContentAll || q.content.OtherContent?) && q.mode == FilterNone ==>
              r.events == Take(es, q.limit) && r.totalCount == |es|
  {
    RebuildKeepsAdmitted(q, now, startDate, endDate, es);
    if (q.content == ContentAll || q.content.OtherContent?) && q.mode == FilterNone {
      MatchesAllAdmitted(q, now, es);
    }
  }

  /** When every incoming event passes both tests, nothing is filtered out. */
  lemma {:induction false} MatchesAllAdmitted(q: Criteria, now: int, es: seq<Event>)
    requires forall e :: e in es ==> Admits(q, now, e)
    ensures Matches(q, now, es) == es
    decreases |es|
  {
    if |es| != 0 {
      assert es[0] in es;
      assert forall e :: e in es[1..] ==> e in es;
      MatchesAllAdmitted(q, now, es[1..]);
      assert es == [es[0]] + es[1..];
    }
  }

  /** A kept timed event is still running (`FilterPast`: before its end, or
      before its start plus the display time when that is set) or has not
      started yet (`FilterPastAndCurrent`); an unknown filter mode keeps only
      all-day events. Conversely, below the limit every timed event the content
      type allows is kept when it is inside that window, and under `FilterNone`
      whatever its times. */
  lemma RebuildTimeWindow(q: Criteria, now: int, startDate: Option<int>, endDate: Option<int>, es: seq<Event>)
    ensures var r := Rebuild(q, now, startDate, endDate, es);
            q.mode == FilterPast ==> forall e :: e in r.events && !e.allDay ==>
              now < (if q.displayTime > 0 then e.startTime + q.displayTime * MsPerSecond else e.endTime)
    ensures var r := Rebuild(q, now, startDate, endDate, es);
            q.mode == FilterPastAndCurrent ==> forall e :: e in r.events && !e.allDay ==> now < e.startTime
    ensures var r := Rebuild(q, now, startDate, endDate, es);
            q.mode.OtherFilter? ==> forall e :: e in r.events ==> e.allDay
    ensures var r := Rebuild(q, now, startDate, endDate, es);
            r.totalCount <= q.limit && q.content != ContentAllDay ==>
              forall e :: e in es && !e.allDay ==>
                (|| q.mode == FilterNone
                 || (q.mode == FilterPast &&
                     now < (if q.displayTime > 0 then e.startTime + q.displayTime * MsPerSecond else e.endTime))
                 || (q.mode == FilterPastAndCurrent && now < e.startTime))
                ==> e in r.events
  {
    RebuildKeepsAdmitted(q, now, startDate, endDate, es);
    var r := Rebuild(q, now, startDate, endDate, es);
    if r.totalCount <= q.limit && q.content != ContentAllDay {
      assert r.events == Matches(q, now, es);
      forall e | e in es && !e.allDay && (|| q.mode == FilterNone
                                          || (q.mode == FilterPast && now < EffectiveEnd(e, q.displayTime))
                                          || (q.mode == FilterPastAndCurrent && now < e.startTime))
        ensures e in r.events
      {
        assert Admits(q, now, e);
      }
    }
  }

  /** Every match is counted; the list holds the first `limit` of them. */
  lemma RebuildCounts(q: Criteria, now: int, startDate: Option<int>, endDate: Option<int>, es: seq<Event>)
    ensures var r := Rebuild(q, now, startDate, endDate, es);
            && r.totalCount <= |es|
            && (q.limit > 0 ==> |r.events| == Min(r.totalCount, q.limit))
            && (q.limit <= 0 ==> r.events == [])
  {
  }

  /** Below the limit nothing is cut: the list holds exactly the incoming events
      that pass the filters, all-day events passing whatever the filter mode. */
  lemma RebuildWithoutTruncation(q: Criteria, now: int, startDate: Option<int>, endDate: Option<int>, es: seq<Event>)
    ensures var r := Rebuild(q, now, startDate, endDate, es);
            r.totalCount <= q.limit ==>
              forall e :: e in r.events <==> e in es && ContentAdmits(q.content, e) && TimeAdmits(q, now, e)
    ensures var r := Rebuild(q, now, startDate, endDate, es);
            r.totalCount <= q.limit ==>
              forall e :: e in es && e.allDay && ContentAdmits(q.content, e) ==> e in r.events
  {
  }

  /** Lowering the limit cuts the same list shorter and leaves the count alone. */
  lemma RebuildLimitPrefix(q: Criteria, n: int, now: int, startDate: Option<int>, endDate: Option<int>, es: seq<Event>)
    ensures var small := Rebuild(q.(limit := n), now, startDate, endDate, es);
            var big := Rebuild(q, now, startDate, endDate, es);
            && small.totalCount == big.totalCount
            && (n <= q.limit ==> small.events == big.events[..|small.events|])
  {
    var m := Matches(q, now, es);
    assert Matches(q.(limit := n), now, es) == m by {
      MatchesIgnoresLimit(q, n, now, es);
    }
  }

  lemma {:induction false} MatchesIgnoresLimit(q: Criteria, n: int, now: int, es: seq<Event>)
    ensures Matches(q.(limit := n), now, es) == Matches(q, now, es)
    decreases |es|
  {
    if |es| != 0 {
      MatchesIgnoresLimit(q, n, now, es[1..]);
    }
  }

  // ---------------------------------------------------------------------------
  // Expiry
  // ---------------------------------------------------------------------------

  /** `MinExpiry` is the least key present, and is present exactly when some
      element has a key. */
  lemma {:induction false} MinExpiryIsLeast(q: Criteria, s: seq<Event>)
    ensures MinExpiry(q, s).Some? <==> exists e :: e in s && ExpiryKey(q, e).Some?
    ensures MinExpiry(q, s).Some? ==>
              && (forall e :: e in s && ExpiryKey(q, e).Some? ==> MinExpiry(q, s).value <= ExpiryKey(q, e).value)
              && (exists e :: e in s && ExpiryKey(q, e) == MinExpiry(q, s))
    decreases |s|
  {
    if |s| != 0 {
      var p, x := s[..|s| - 1], s[|s| - 1];
      assert s == p + [x];
      MinExpiryIsLeast(q, p);
      assert forall e :: e in s <==> e in p || e == x;
      if MinExpiry(q, p).Some? {
        var w :| w in p && ExpiryKey(q, w) == MinExpiry(q, p);
        assert w in s;
      }
    }
  }

  /** The expiry is the least key over the kept timed events of the two moving
      filter modes, and lies after `now`; without such an event it falls back to
      the end date or to the day after the start date. */
  lemma RebuildExpiry(q: Criteria, now: int, startDate: Option<int>, endDate: Option<int>, es: seq<Event>)
    ensures var r := Rebuild(q, now, startDate, endDate, es);
            (exists e :: e in r.events && ExpiryKey(q, e).Some?) ==>
              && r.expiry.Some?
              && now < r.expiry.value
              && (forall e :: e in r.events && ExpiryKey(q, e).Some? ==> r.expiry.value <= ExpiryKey(q, e).value)
              && (exists e :: e in r.events && ExpiryKey(q, e) == r.expiry)
    ensures var r := Rebuild(q, now, startDate, endDate, es);
            (forall e :: e in r.events ==> ExpiryKey(q, e).None?) ==> r.expiry == ExpiryFallback(startDate, endDate)
    ensures var r := Rebuild(q, now, startDate, endDate, es);
            (q.mode == FilterNone || q.mode.OtherFilter?) ==> r.expiry == ExpiryFallback(startDate, endDate)
  {
    var r := Rebuild(q, now, startDate, endDate, es);
    MinExpiryIsLeast(q, r.events);
    RebuildKeepsAdmitted(q, now, startDate, endDate, es);
    if exists e :: e in r.events && ExpiryKey(q, e).Some? {
      var w :| w in r.events && ExpiryKey(q, w) == r.expiry;
      assert Admits(q, now, w);
    }
  }

  /** A key marks the end of an event's stay in the time window; an event
      without one is in or out of the window for good. */
  lemma KeyBoundsWindow(q: Criteria, e: Event, t: int, u: int)
    ensures ExpiryKey(q, e).Some? ==> (TimeAdmits(q, t, e) <==> t < ExpiryKey(q, e).value)
    ensures ExpiryKey(q, e).None? ==> (TimeAdmits(q, t, e) <==> TimeAdmits(q, u, e))
  {
  }

  lemma TakeCons<T>(x: T, s: seq<T>, n: int)
    requires n > 0
    ensures Take([x] + s, n) == [x] + Take(s, n - 1)
  {
  }

  /** If every event among the first `n` matches at `now` is still in the time
      window at the later instant `t`, the first `n` matches at `t` are the
      same. */
  lemma {:induction false} TakeMatchesStable(q: Criteria, now: int, t: int, es: seq<Event>, n: int)
    requires now <= t
    requires forall e :: e in Take(Matches(q, now, es), n) ==> TimeAdmits(q, t, e)
    ensures Take(Matches(q, t, es), n) == Take(Matches(q, now, es), n)
    decreases |es|
  {
    if |es| != 0 && n > 0 {
      var e, rest := es[0], es[1..];
      var mNow, mT := Matches(q, now, rest), Matches(q, t, rest);
      if Admits(q, now, e) {
        assert Matches(q, now, es) == [e] + mNow;
        TakeCons(e, mNow, n);
        assert e in Take(Matches(q, now, es), n);
        assert Matches(q, t, es) == [e] + mT;
        TakeCons(e, mT, n);
        TakeMatchesStable(q, now, t, rest, n - 1);
      } else {
        assert !Admits(q, t, e) by {
          KeyBoundsWindow(q, e, now, t);
        }
        assert Matches(q, now, es) == mNow;
        assert Matches(q, t, es) == mT;
        TakeMatchesStable(q, now, t, rest, n);
      }
    }
  }

  /** Before the expiry a rebuild would produce the same list and the same
      expiry; with no kept timed event it would do so at every later instant. */
  lemma RebuildStableUntilExpiry(q: Criteria, now: int, t: int, startDate: Option<int>, endDate: Option<int>, es: seq<Event>)
    requires now <= t
    requires var r := Rebuild(q, now, startDate, endDate, es);
             (exists e :: e in r.events && ExpiryKey(q, e).Some?) ==> r.expiry.Some? && t < r.expiry.value
    ensures Rebuild(q, t, startDate, endDate, es).events == Rebuild(q, now, startDate, endDate, es).events
    ensures Rebuild(q, t, startDate, endDate, es).expiry == Rebuild(q, now, startDate, endDate, es).expiry
  {
    var r := Rebuild(q, now, startDate, endDate, es);
    RebuildExpiry(q, now, startDate, endDate, es);
    RebuildKeepsAdmitted(q, now, startDate, endDate, es);
    forall e | e in r.events
      ensures TimeAdmits(q, t, e)
    {
      KeyBoundsWindow(q, e, t, now);
    }
    TakeMatchesStable(q, now, t, es, q.limit);
  }

  /** The stability above covers the list and the expiry but not the total
      count: matches beyond the limit do not take part in the expiry, so one of
      them can leave the window first. With `FilterPast`, limit 1 and a reply
      of an event ending at 100 followed by one ending at 50, a rebuild at 0
      keeps the first, counts 2 and expires at 100; at 60 it counts 1. */
  lemma TotalCountCanChangeBeforeExpiry()
    ensures var q := Criteria(FilterPast, ContentAll, 1, 0);
            var e1 := Event("", "", 0, 100, "", false, "", "", "a", "");
            var e2 := Event("", "", 0, 50, "", false, "", "", "b", "");
            var r := Rebuild(q, 0, None, None, [e1, e2]);
            && r.events == [e1]
            && r.totalCount == 2
            && r.expiry == Some(100)
            && Rebuild(q, 60, None, None, [e1, e2]).events == [e1]
            && Rebuild(q, 60, None, None, [e1, e2]).totalCount == 1
  {
    var q := Criteria(FilterPast, ContentAll, 1, 0);
    var e1 := Event("", "", 0, 100, "", false, "", "", "a", "");
    var e2 := Event("", "", 0, 50, "", false, "", "", "b", "");
    assert [e1, e2][1..] == [e2];
    assert [e2][1..] == [];
    assert Matches(q, 0, [e1, e2]) == [e1, e2];
    assert Matches(q, 60, [e1, e2]) == [e1];
    assert [e1][..0] == [];
    assert MinExpiry(q, [e1]) == Some(100);
  }

  /** At the expiry itself the event that supplied it has left the window, so a
      rebuild would no longer produce the same list. */
  lemma RebuildChangesAtExpiry(q: Criteria, now: int, startDate: Option<int>, endDate: Option<int>, es: seq<Event>)
    requires exists e :: e in Rebuild(q, now, startDate, endDate, es).events && ExpiryKey(q, e).Some?
    ensures var r := Rebuild(q, now, startDate, endDate, es);
            r.expiry.Some? && Rebuild(q, r.expiry.value, startDate, endDate, es).events != r.events
  {
    var r := Rebuild(q, now, startDate, endDate, es);
    RebuildExpiry(q, now, startDate, endDate, es);
    var w :| w in r.events && ExpiryKey(q, w) == r.expiry;
    KeyBoundsWindow(q, w, r.expiry.value, now);
    RebuildKeepsAdmitted(q, r.expiry.value, startDate, endDate, es);
  }
}
