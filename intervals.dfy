/** `groupFramesIntoIntervals`: limit-exceeding events sorted by frame and coalesced into
    runs of consecutive frames, each summarised as `[start, end, peak]`. */
module Intervals {
  import opened Series

  /** A `[start, end, peak]` triple. */
  datatype Interval = Interval(start: int, end: int, peak: real)

  predicate SortedByFrame(s: seq<Event>) {
    forall i, j :: 0 <= i < j < |s| ==> s[i].frame <= s[j].frame
  }

  /** No two events share a frame. */
  predicate DistinctFrames(s: seq<Event>) {
    forall i, j :: 0 <= i < j < |s| ==> s[i].frame != s[j].frame
  }

  /** `e` placed into `s` before the first event whose frame is not smaller. */
  function Insert(e: Event, s: seq<Event>): (r: seq<Event>)
    ensures multiset(r) == multiset(s) + multiset{e}
  {
    if |s| == 0 || e.frame <= s[0].frame then [e] + s
    else
      assert s == [s[0]] + s[1..];
      [s[0]] + Insert(e, s[1..])
  }

  /** What `Insert` returns holds `e` and the events of `s`, nothing else. */
  lemma InsertMembers(e: Event, s: seq<Event>)
    ensures forall x :: x in Insert(e, s) ==> x == e || x in s
  {
    forall x | x in Insert(e, s) ensures x == e || x in s {
      assert x in multiset(Insert(e, s));
    }
  }

  /** Inserting into a sorted list keeps it sorted. */
  lemma {:induction false} InsertSorted(e: Event, s: seq<Event>)
    requires SortedByFrame(s)
    ensures SortedByFrame(Insert(e, s))
  {
    if |s| > 0 && e.frame > s[0].frame {
      var t := Insert(e, s[1..]);
      InsertSorted(e, s[1..]);
      InsertMembers(e, s[1..]);
      assert forall j :: 0 <= j < |t| ==> t[j] in t;
      assert forall x :: x in s[1..] ==> s[0].frame <= x.frame;
      assert Insert(e, s) == [s[0]] + t;
    }
  }

  /** `frames.slice().sort((a, b) => a[0] - b[0])`: a sorted copy of the events (an insertion
      sort that keeps events with equal frames in their input order). */
  function SortByFrame(s: seq<Event>): (r: seq<Event>)
    ensures SortedByFrame(r)
    ensures multiset(r) == multiset(s)
  {
    if |s| == 0 then []
    else
      var t := SortByFrame(s[1..]);
      InsertSorted(s[0], t);
      assert s == [s[0]] + s[1..];
      Insert(s[0], t)
  }

  /** The runs of `s`, scanning left to right: an event whose frame is one more than the
      previous event's extends the current run, any other event starts a new run. */
  function Runs(s: seq<Event>): (runs: seq<seq<Event>>)
    ensures |runs| == 0 <==> |s| == 0
    ensures forall k :: 0 <= k < |runs| ==> |runs[k]| > 0
    ensures |s| > 0 ==> Last(Last(runs)) == Last(s)
  {
    if |s| == 0 then []
    else
      var init := Runs(s[..|s| - 1]);
      var e := Last(s);
      if |init| > 0 && e.frame == Last(Last(init)).frame + 1 then
        init[..|init| - 1] + [Last(init) + [e]]
      else
        init + [[e]]
  }

  /** The largest magnitude of a non-empty run, kept under a strict `>` scan. */
  function Peak(run: seq<Event>): (p: real)
    requires |run| > 0
    ensures forall k :: 0 <= k < |run| ==> run[k].magnitude <= p
    ensures exists k :: 0 <= k < |run| && run[k].magnitude == p
  {
    if |run| == 1 then run[0].magnitude
    else
      var p := Peak(run[..|run| - 1]);
      assert forall k :: 0 <= k < |run| - 1 ==> run[k] == run[..|run| - 1][k];
      if Last(run).magnitude > p then Last(run).magnitude else p
  }

  function Summary(run: seq<Event>): (r: Interval)
    requires |run| > 0
    ensures r.start == run[0].frame && r.end == Last(run).frame
    ensures forall k :: 0 <= k < |run| ==> run[k].magnitude <= r.peak
    ensures exists k :: 0 <= k < |run| && run[k].magnitude == r.peak
  {
    Interval(run[0].frame, Last(run).frame, Peak(run))
  }

  function Summaries(runs: seq<seq<Event>>): (r: seq<Interval>)
    requires forall k :: 0 <= k < |runs| ==> |runs[k]| > 0
    ensures |r| == |runs|
    ensures forall k :: 0 <= k < |runs| ==> r[k] == Summary(runs[k])
  {
    seq(|runs|, k requires 0 <= k < |runs| => Summary(runs[k]))
  }

  /** Every run is a stretch of consecutive frames. */
  predicate Consecutive(run: seq<Event>) {
    forall j :: 0 <= j < |run| - 1 ==> run[j + 1].frame == run[j].frame + 1
  }

  function Flatten(runs: seq<seq<Event>>): seq<Event> {
    if |runs| == 0 then [] else Flatten(runs[..|runs| - 1]) + Last(runs)
  }

  /** `runs` cuts `s` into non-empty stretches of consecutive frames, and cuts exactly where
      the next frame is not one more than the previous one. */
  ghost predicate IsRunSplit(s: seq<Event>, runs: seq<seq<Event>>) {
    && Flatten(runs) == s
    && (forall k :: 0 <= k < |runs| ==> |runs[k]| > 0 && Consecutive(runs[k]))
    && (forall k :: 0 < k < |runs| ==> runs[k][0].frame != Last(runs[k - 1]).frame + 1)
  }

  lemma SummaryExtend(run: seq<Event>, e: Event)
    requires |run| > 0
    ensures Summary(run + [e]) ==
      Interval(run[0].frame, e.frame, if e.magnitude > Peak(run) then e.magnitude else Peak(run))
  {
    assert (run + [e])[..|run|] == run;
  }

  lemma SummariesAppend(runs: seq<seq<Event>>, run: seq<Event>)
    requires forall k :: 0 <= k < |runs| ==> |runs[k]| > 0
    requires |run| > 0
    ensures Summaries(runs + [run]) == Summaries(runs) + [Summary(run)]
  {
  }

  lemma SummariesPrefix(runs: seq<seq<Event>>)
    requires forall k :: 0 <= k < |runs| ==> |runs[k]| > 0
    requires |runs| > 0
    ensures Summaries(runs) == Summaries(runs[..|runs| - 1]) + [Summary(Last(runs))]
  {
  }

  /** The summaries of all runs but the last, and the last run's summary. */
  lemma SummariesSplit(done: seq<Interval>, last: Interval, runs: seq<seq<Event>>)
    requires forall k :: 0 <= k < |runs| ==> |runs[k]| > 0
    requires done + [last] == Summaries(runs)
    ensures |runs| > 0
    ensures done == Summaries(runs[..|runs| - 1]) && last == Summary(Last(runs))
  {
    SummariesPrefix(runs);
    assert (done + [last])[..|done|] == done;
  }

  lemma {:induction false} FlattenRuns(s: seq<Event>)
    ensures Flatten(Runs(s)) == s
  {
    if |s| > 0 {
      var s', e := s[..|s| - 1], Last(s);
      var init := Runs(s');
      FlattenRuns(s');
      var runs := Runs(s);
      if |init| > 0 && e.frame == Last(Last(init)).frame + 1 {
        var done, run := init[..|init| - 1], Last(init);
        assert runs[..|runs| - 1] == done;
        assert Flatten(runs) == Flatten(done) + (run + [e]);
      } else {
        assert runs[..|runs| - 1] == init;
      }
    }
  }

  lemma {:induction false} RunsConsecutive(s: seq<Event>)
    ensures forall k :: 0 <= k < |Runs(s)| ==> Consecutive(Runs(s)[k])
  {
    if |s| > 0 {
      var s', e := s[..|s| - 1], Last(s);
      var init := Runs(s');
      RunsConsecutive(s');
      if |init| > 0 && e.frame == Last(Last(init)).frame + 1 {
        assert Consecutive(Last(init) + [e]);
      }
    }
  }

  lemma {:induction false} RunsBreak(s: seq<Event>)
    ensures forall k :: 0 < k < |Runs(s)| ==> Runs(s)[k][0].frame != Last(Runs(s)[k - 1]).frame + 1
  {
    if |s| > 0 {
      var s', e := s[..|s| - 1], Last(s);
      var init := Runs(s');
      RunsBreak(s');
    }
  }

  /** The runs cut the events into stretches of consecutive frames, in order, with a cut
      exactly where consecutiveness breaks: every event is in exactly one interval. */
  lemma RunsSplit(s: seq<Event>)
    ensures IsRunSplit(s, Runs(s))
  {
    FlattenRuns(s);
    RunsConsecutive(s);
    RunsBreak(s);
  }

  /** Removing the last event from a split whose last run is longer than one event. */
  lemma SplitShortenLast(s: seq<Event>, runs: seq<seq<Event>>)
    requires IsRunSplit(s, runs)
    requires |runs| > 0 && |Last(runs)| > 1
    ensures |s| > 0
    ensures var shorter := Last(runs)[..|Last(runs)| - 1];
      && IsRunSplit(s[..|s| - 1], runs[..|runs| - 1] + [shorter])
      && Last(runs) == shorter + [Last(s)]
      && Last(s).frame == Last(shorter).frame + 1
  {
    var m := |runs|;
    var done, run := runs[..m - 1], Last(runs);
    var shorter := run[..|run| - 1];
    var runs' := done + [shorter];
    assert runs'[..m - 1] == done;
    assert run == shorter + [Last(run)];
    assert Flatten(runs) == Flatten(done) + shorter + [Last(run)];
    assert Consecutive(shorter);
    assert forall k :: 0 <= k < m - 1 ==> runs'[k] == runs[k];
  }

  /** Removing the last run when it holds a single event. */
  lemma SplitDropLast(s: seq<Event>, runs: seq<seq<Event>>)
    requires IsRunSplit(s, runs)
    requires |runs| > 0 && |Last(runs)| == 1
    ensures |s| > 0 && Last(runs) == [Last(s)]
    ensures IsRunSplit(s[..|s| - 1], runs[..|runs| - 1])
    ensures |runs| > 1 ==> Last(s).frame != Last(runs[|runs| - 2]).frame + 1
  {
    var m := |runs|;
    assert Flatten(runs) == Flatten(runs[..m - 1]) + Last(runs);
  }

  /** An event that does not follow the last run's end starts a run of its own. */
  lemma RunsStartNew(s: seq<Event>, done: seq<seq<Event>>)
    requires |s| > 0 && Runs(s[..|s| - 1]) == done
    requires |done| > 0 ==> Last(s).frame != Last(Last(done)).frame + 1
    ensures Runs(s) == done + [[Last(s)]]
  {
  }

  /** An event that follows the last run's end extends that run. */
  lemma RunsExtendLast(s: seq<Event>, done: seq<seq<Event>>, shorter: seq<Event>)
    requires |s| > 0 && Runs(s[..|s| - 1]) == done + [shorter]
    requires |shorter| > 0 && Last(s).frame == Last(shorter).frame + 1
    ensures Runs(s) == done + [shorter + [Last(s)]]
  {
    var init := Runs(s[..|s| - 1]);
    assert Runs(s) == init[..|init| - 1] + [Last(init) + [Last(s)]];
    assert init[..|init| - 1] == done && Last(init) == shorter;
  }

  /** The split into runs is unique: any cut of `s` into consecutive stretches that cuts
      exactly at the breaks is the one `Runs` computes. */
  lemma {:induction false} RunSplitUnique(s: seq<Event>, runs: seq<seq<Event>>)
    requires IsRunSplit(s, runs)
    ensures runs == Runs(s)
  {
    if |runs| == 0 {
      assert s == [];
    } else {
      var done := runs[..|runs| - 1];
      assert runs == done + [Last(runs)];
      if |Last(runs)| == 1 {
        SplitDropLast(s, runs);
        RunSplitUnique(s[..|s| - 1], done);
        RunsStartNew(s, done);
      } else {
        var shorter := Last(runs)[..|Last(runs)| - 1];
        SplitShortenLast(s, runs);
        RunSplitUnique(s[..|s| - 1], done + [shorter]);
        RunsExtendLast(s, done, shorter);
      }
    }
  }

  /** Start and end of each interval are in order, and over sorted events the intervals follow
      one another; with distinct frames a gap of at least one missing frame separates them. */
  ghost predicate Ascending(iv: seq<Interval>) {
    && (forall k :: 0 <= k < |iv| ==> iv[k].start <= iv[k].end)
    && (forall k :: 0 < k < |iv| ==> iv[k - 1].end <= iv[k].start)
  }

  ghost predicate Separated(iv: seq<Interval>) {
    forall k :: 0 < k < |iv| ==> iv[k - 1].end + 2 <= iv[k].start
  }

  lemma {:induction false} ConsecutiveSpan(run: seq<Event>)
    requires |run| > 0 && Consecutive(run)
    ensures Last(run).frame == run[0].frame + |run| - 1
  {
    if |run| > 1 {
      ConsecutiveSpan(run[..|run| - 1]);
    }
  }

  /** Each run is non-empty and ends at least `gap` frames before the next one starts. */
  ghost predicate Follows(runs: seq<seq<Event>>, gap: int) {
    && (forall k :: 0 <= k < |runs| ==> |runs[k]| > 0)
    && (forall k :: 0 <= k < |runs| - 1 ==> Last(runs[k]).frame + gap <= runs[k + 1][0].frame)
  }

  lemma FollowsExtend(done: seq<seq<Event>>, last: seq<Event>, e: Event, gap: int)
    requires Follows(done + [last], gap)
    ensures Follows(done + [last + [e]], gap)
  {
    var before, after := done + [last], done + [last + [e]];
    assert forall k :: 0 <= k < |done| ==> after[k] == before[k];
    assert after[|done|][0] == before[|done|][0];
  }

  lemma FollowsNew(init: seq<seq<Event>>, e: Event, gap: int)
    requires Follows(init, gap)
    requires |init| > 0 ==> Last(Last(init)).frame + gap <= e.frame
    ensures Follows(init + [[e]], gap)
  {
    var after := init + [[e]];
    assert forall k :: 0 <= k < |init| ==> after[k] == init[k];
  }

  /** Over sorted events each run ends no later than the next one starts (`gap` 0), and
      strictly earlier when no frame repeats (`gap` 1). */
  lemma {:induction false} RunsFollow(s: seq<Event>, gap: int)
    requires SortedByFrame(s)
    requires gap == 0 || (gap == 1 && DistinctFrames(s))
    ensures Follows(Runs(s), gap)
  {
    if |s| > 0 {
      var s', e := s[..|s| - 1], Last(s);
      var init := Runs(s');
      assert SortedByFrame(s');
      assert gap == 1 ==> DistinctFrames(s');
      RunsFollow(s', gap);
      if |init| == 0 {
        RunsStartNew(s, init);
      } else {
        var done, last := init[..|init| - 1], Last(init);
        assert init == done + [last];
        assert Last(last) == s[|s| - 2];
        if e.frame == Last(last).frame + 1 {
          RunsExtendLast(s, done, last);
          FollowsExtend(done, last, e, gap);
        } else {
          RunsStartNew(s, init);
          FollowsNew(init, e, gap);
        }
      }
    }
  }

  lemma IntervalsOrdered(s: seq<Event>)
    requires SortedByFrame(s)
    ensures Ascending(Summaries(Runs(s)))
    ensures DistinctFrames(s) ==> Separated(Summaries(Runs(s)))
  {
    var runs: seq<seq<Event>> := Runs(s);
    RunsConsecutive(s);
    RunsBreak(s);
    RunsFollow(s, 0);
    if DistinctFrames(s) {
      RunsFollow(s, 1);
    }
    forall k | 0 <= k < |runs|
      ensures runs[k][0].frame <= Last(runs[k]).frame
    {
      ConsecutiveSpan(runs[k]);
    }
  }

  lemma {:induction false} InsertDistinct(e: Event, s: seq<Event>)
    requires DistinctFrames(s)
    requires forall x :: x in s ==> x.frame != e.frame
    ensures DistinctFrames(Insert(e, s))
  {
    if |s| > 0 && e.frame > s[0].frame {
      var t := Insert(e, s[1..]);
      InsertDistinct(e, s[1..]);
      InsertMembers(e, s[1..]);
      assert forall x :: x in s[1..] ==> x.frame != s[0].frame;
      assert forall j :: 0 <= j < |t| ==> t[j] in t;
      assert Insert(e, s) == [s[0]] + t;
    }
  }

  /** Sorting keeps frames distinct. */
  lemma {:induction false} SortDistinct(s: seq<Event>)
    requires DistinctFrames(s)
    ensures DistinctFrames(SortByFrame(s))
  {
    if |s| > 0 {
      var t := SortByFrame(s[1..]);
      assert DistinctFrames(s[1..]);
      SortDistinct(s[1..]);
      assert forall x :: x in t ==> x in multiset(s[1..]);
      assert forall x :: x in s[1..] ==> x.frame != s[0].frame;
      InsertDistinct(s[0], t);
    }
  }

  /** Sorting an already sorted list changes nothing. */
  lemma {:induction false} SortSorted(s: seq<Event>)
    requires SortedByFrame(s)
    ensures SortByFrame(s) == s
  {
    if |s| > 0 {
      SortSorted(s[1..]);
      assert s == [s[0]] + s[1..];
    }
  }

  lemma ExampleRuns(events: seq<Event>)
    requires |events| == 5
    requires events[0] == Event(5, 1.0) && events[1] == Event(6, 3.0) && events[2] == Event(7, 2.0)
    requires events[3] == Event(10, 5.0) && events[4] == Event(11, 4.0)
    ensures Runs(events) == [events[..3], events[3..]]
  {
    var first, second := events[..3], events[3..];
    var runs := [first, second];
    assert Flatten(runs) == events by {
      assert runs[..1] == [first] && runs[..1][..0] == [];
      assert Flatten(runs[..1]) == first;
      assert first + second == events;
    }
    assert Consecutive(first) by {
      assert first == [events[0], events[1], events[2]];
    }
    assert Consecutive(second) by {
      assert second == [events[3], events[4]];
    }
    assert runs[1][0].frame != Last(runs[0]).frame + 1;
    RunSplitUnique(events, runs);
  }

  /** Events at frames 5, 6, 7, 10, 11 with magnitudes 1, 3, 2, 5, 4 give the intervals
      `[5, 7, 3]` and `[10, 11, 5]`. */
  lemma ExampleGrouping(events: seq<Event>)
    requires |events| == 5
    requires events[0] == Event(5, 1.0) && events[1] == Event(6, 3.0) && events[2] == Event(7, 2.0)
    requires events[3] == Event(10, 5.0) && events[4] == Event(11, 4.0)
    ensures Summaries(Runs(SortByFrame(events))) == [Interval(5, 7, 3.0), Interval(10, 11, 5.0)]
  {
    var first, second := events[..3], events[3..];
    assert SortByFrame(events) == events by {
      assert SortedByFrame(events);
      SortSorted(events);
    }
    ExampleRuns(events);
    assert Peak(first) == 3.0 by {
      assert first[..2][..1] == [Event(5, 1.0)];
    }
    assert Peak(second) == 5.0 by {
      assert second[..1] == [Event(10, 5.0)];
    }
    assert Summaries([first, second]) == [Summary(first), Summary(second)];
  }

  /** One event for each frame of an interval, each carrying the interval's peak. */
  function Span(iv: Interval): (r: seq<Event>)
    ensures iv.start <= iv.end ==> |r| == iv.end - iv.start + 1
  {
    if iv.end < iv.start then [] else seq(iv.end - iv.start + 1, k => Event(iv.start + k, iv.peak))
  }

  /** The intervals flattened back into events, one per covered frame. */
  function Expand(iv: seq<Interval>): seq<Event> {
    if |iv| == 0 then [] else Expand(iv[..|iv| - 1]) + Span(Last(iv))
  }

  function Spans(iv: seq<Interval>): (runs: seq<seq<Event>>)
    ensures |runs| == |iv|
  {
    seq(|iv|, k requires 0 <= k < |iv| => Span(iv[k]))
  }

  /** The flattened spans are the expansion. */
  lemma {:induction false} FlattenSpans(iv: seq<Interval>)
    ensures Flatten(Spans(iv)) == Expand(iv)
  {
    if |iv| > 0 {
      var init := iv[..|iv| - 1];
      FlattenSpans(init);
      assert Spans(iv)[..|iv| - 1] == Spans(init);
    }
  }

  /** Two sorted lists, the first entirely below `bound` and the second entirely at or above
      it, are sorted one after the other. */
  lemma SortedAppend(a: seq<Event>, b: seq<Event>, bound: int)
    requires SortedByFrame(a) && SortedByFrame(b)
    requires forall j :: 0 <= j < |a| ==> a[j].frame < bound
    requires forall j :: 0 <= j < |b| ==> bound <= b[j].frame
    ensures SortedByFrame(a + b)
  {
    var c := a + b;
    forall i, j | 0 <= i < j < |c| ensures c[i].frame <= c[j].frame {
      if j < |a| {
        assert c[i] == a[i] && c[j] == a[j];
      } else if i >= |a| {
        assert c[i] == b[i - |a|] && c[j] == b[j - |a|];
      } else {
        assert c[i] == a[i] && c[j] == b[j - |a|];
      }
    }
  }

  /** Expanding ascending, separated intervals gives events sorted by frame, none beyond the
      last interval's end. */
  lemma {:induction false} ExpandSorted(iv: seq<Interval>)
    requires Ascending(iv) && Separated(iv)
    ensures SortedByFrame(Expand(iv))
    ensures |iv| > 0 ==> forall j :: 0 <= j < |Expand(iv)| ==> Expand(iv)[j].frame <= Last(iv).end
  {
    if |iv| > 0 {
      var init, last := iv[..|iv| - 1], Last(iv);
      assert forall k :: 0 <= k < |init| ==> init[k] == iv[k];
      ExpandSorted(init);
      var a, b := Expand(init), Span(last);
      assert Expand(iv) == a + b;
      assert forall j :: 0 <= j < |b| ==> b[j].frame == last.start + j;
      if |init| > 0 {
        assert Last(init).end + 2 <= last.start;
      }
      SortedAppend(a, b, last.start);
      assert forall j :: 0 <= j < |a| ==> a[j].frame <= last.end;
    }
  }

  lemma ConstantPeak(run: seq<Event>, p: real)
    requires |run| > 0
    requires forall k :: 0 <= k < |run| ==> run[k].magnitude == p
    ensures Peak(run) == p
  {
  }

  lemma SpansSplit(iv: seq<Interval>)
    requires Ascending(iv) && Separated(iv)
    ensures IsRunSplit(Expand(iv), Spans(iv))
  {
    var runs := Spans(iv);
    FlattenSpans(iv);
    forall k | 0 <= k < |runs|
      ensures |runs[k]| > 0 && Consecutive(runs[k])
      ensures runs[k][0].frame == iv[k].start && Last(runs[k]).frame == iv[k].end
    {
    }
  }

  /** Grouping the flattened form of well-separated intervals gives those intervals back. */
  lemma RegroupExpanded(iv: seq<Interval>)
    requires Ascending(iv) && Separated(iv)
    ensures Summaries(Runs(SortByFrame(Expand(iv)))) == iv
  {
    var runs := Spans(iv);
    assert Runs(SortByFrame(Expand(iv))) == runs by {
      ExpandSorted(iv);
      SortSorted(Expand(iv));
      SpansSplit(iv);
      RunSplitUnique(Expand(iv), runs);
    }
    SummariesOfSpans(iv);
  }

  /** Each span summarises back to its interval. */
  lemma SummariesOfSpans(iv: seq<Interval>)
    requires forall k :: 0 <= k < |iv| ==> iv[k].start <= iv[k].end
    ensures Summaries(Spans(iv)) == iv
  {
    var runs := Spans(iv);
    forall k | 0 <= k < |iv|
      ensures Summaries(runs)[k] == iv[k]
    {
      assert |runs[k]| > 0;
      ConstantPeak(runs[k], iv[k].peak);
    }
  }

  /** Over events with distinct frames, grouping the flattened intervals (each frame carrying
      its interval's peak) gives the same intervals again. */
  lemma GroupingIdempotent(frames: seq<Event>)
    requires DistinctFrames(frames)
    ensures var iv := Summaries(Runs(SortByFrame(frames)));
      Summaries(Runs(SortByFrame(Expand(iv)))) == iv
  {
    SortDistinct(frames);
    IntervalsOrdered(SortByFrame(frames));
    RegroupExpanded(Summaries(Runs(SortByFrame(frames))));
  }

  /** The next event follows the run in progress, summarised as `cur`: that run's summary
      now ends at the event, and its peak rises to the event's magnitude if that is larger. */
  lemma SummariesExtendRun(sorted: seq<Event>, i: nat, done: seq<Interval>, cur: Interval)
    requires 1 <= i < |sorted|
    requires done + [cur] == Summaries(Runs(sorted[..i]))
    requires sorted[i].frame == cur.end + 1
    ensures var e := sorted[i];
      done + [Interval(cur.start, e.frame, if e.magnitude > cur.peak then e.magnitude else cur.peak)]
        == Summaries(Runs(sorted[..i + 1]))
  {
    var s, e := sorted[..i + 1], sorted[i];
    assert s[..|s| - 1] == sorted[..i] && Last(s) == e;
    var init := Runs(sorted[..i]);
    SummariesSplit(done, cur, init);
    var front, last := init[..|init| - 1], Last(init);
    assert init == front + [last];
    RunsExtendLast(s, front, last);
    SummariesAppend(front, last + [e]);
    SummaryExtend(last, e);
  }

  /** The next event does not follow the run in progress: that run's summary `cur` is
      complete and the event opens a run of its own. */
  lemma SummariesStartRun(sorted: seq<Event>, i: nat, done: seq<Interval>, cur: Interval)
    requires 1 <= i < |sorted|
    requires done + [cur] == Summaries(Runs(sorted[..i]))
    requires sorted[i].frame != cur.end + 1
    ensures var e := sorted[i];
      done + [cur] + [Interval(e.frame, e.frame, e.magnitude)] == Summaries(Runs(sorted[..i + 1]))
  {
    var s, e := sorted[..i + 1], sorted[i];
    assert s[..|s| - 1] == sorted[..i] && Last(s) == e;
    var init := Runs(sorted[..i]);
    SummariesSplit(done, cur, init);
    RunsStartNew(s, init);
    SummariesAppend(init, [e]);
  }

  /** `groupFramesIntoIntervals(frames)`: one interval per run of the sorted copy, from the
      run's first frame to its last, with the run's largest magnitude. */
  method GroupFramesIntoIntervals(frames: seq<Event>) returns (intervals: seq<Interval>)
    ensures intervals == Summaries(Runs(SortByFrame(frames)))
    ensures |intervals| == 0 <==> |frames| == 0
    ensures Ascending(intervals)
    ensures DistinctFrames(frames) ==> Separated(intervals)
  {
    if |frames| == 0 {
      return [];
    }

    var sorted := SortByFrame(frames);
    assert |sorted| == |frames| by {
      assert |multiset(sorted)| == |multiset(frames)|;
    }
    intervals := CoalesceSorted(sorted);
    IntervalsOrdered(sorted);
    if DistinctFrames(frames) {
      SortDistinct(frames);
    }
  }

  /** The loop of `groupFramesIntoIntervals` over the sorted copy: `start`, `prev` and `maxVal`
      describe the run in progress, which is pushed when the next frame is not `prev + 1`
      and once more after the last event. */
  method CoalesceSorted(sorted: seq<Event>) returns (intervals: seq<Interval>)
    requires |sorted| > 0
    ensures intervals == Summaries(Runs(sorted))
  {
    intervals := [];

    var start := sorted[0].frame;
    var prev := sorted[0].frame;
    var maxVal := sorted[0].magnitude;
    assert sorted[..1][..0] == [];
    assert Runs(sorted[..1]) == [[sorted[0]]];

    var i := 1;
    while i < |sorted|
      invariant 1 <= i <= |sorted|
      invariant intervals + [Interval(start, prev, maxVal)] == Summaries(Runs(sorted[..i]))
    {
      var frameNum, value := sorted[i].frame, sorted[i].magnitude;
      if frameNum == prev + 1 {
        SummariesExtendRun(sorted, i, intervals, Interval(start, prev, maxVal));
        prev := frameNum;
        if value > maxVal {
          maxVal := value;
        }
      } else {
        SummariesStartRun(sorted, i, intervals, Interval(start, prev, maxVal));
        intervals := intervals + [Interval(start, prev, maxVal)];
        start := frameNum;
        prev := frameNum;
        maxVal := value;
      }
      i := i + 1;
    }
    assert sorted[..i] == sorted;
    intervals := intervals + [Interval(start, prev, maxVal)];
  }
}
