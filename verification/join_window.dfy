/** The join-window predicate `is_time_to_join`, on a single timeline of
    whole seconds shared by the event start and the clock. */
module JoinWindow {

  /** How long before the start the window opens, in seconds. */
  const LeadSeconds: int := 60

  /** True when `now - start` lies in `[-LeadSeconds, 0]`. */
  predicate IsTimeToJoin(start: int, now: int) {
    var diff := now - start;
    -LeadSeconds <= diff <= 0
  }

  /** The window, stated on the clock: from one minute before the start up to
      and including the start instant; false more than a minute early and 1 or
      more seconds late. */
  lemma WindowBounds(start: int, now: int)
    ensures IsTimeToJoin(start, now) <==> start - LeadSeconds <= now <= start
    ensures now < start - LeadSeconds ==> !IsTimeToJoin(start, now)
    ensures now >= start + 1 ==> !IsTimeToJoin(start, now)
  {
  }

  /** Clock readings taken at strictly increasing times, no two neighbours
      more than `gap` seconds apart. */
  predicate EvenlyPolled(times: seq<int>, gap: int) {
    forall k :: 0 <= k < |times| - 1 ==> times[k] < times[k + 1] <= times[k] + gap
  }

  /** Some reading in `times` falls inside the window of `start`. */
  predicate Catches(times: seq<int>, start: int) {
    exists k :: 0 <= k < |times| && IsTimeToJoin(start, times[k])
  }

  /** Ticks at most 60 seconds apart that straddle the window always land in
      it: some reading in `times` is a time to join. The bound is the window's
      length; `PollingCatchesWindowAt` below proves it on real instants. */
  lemma {:induction false} PollingCatchesWindow(times: seq<int>, start: int)
    requires |times| > 0
    requires EvenlyPolled(times, LeadSeconds)
    requires times[0] <= start
    requires start - LeadSeconds <= times[|times| - 1]
    ensures Catches(times, start)
  {
    if !IsTimeToJoin(start, times[0]) {
      // times[0] is too early, so there is a next reading, at most a lead later.
      assert times[0] < start - LeadSeconds;
      assert |times| > 1;
      assert EvenlyPolled(times[1..], LeadSeconds) by {
        forall k | 0 <= k < |times[1..]| - 1
          ensures times[1..][k] < times[1..][k + 1] <= times[1..][k] + LeadSeconds
        {
          assert times[1..][k] == times[k + 1];
          assert times[1..][k + 1] == times[k + 2];
        }
      }
      assert times[1] <= times[0] + LeadSeconds;
      PollingCatchesWindow(times[1..], start);
      var k :| 0 <= k < |times[1..]| && IsTimeToJoin(start, times[1..][k]);
      assert times[1..][k] == times[k + 1];
      assert IsTimeToJoin(start, times[k + 1]);
    }
  }

  /** The gap left open by the fixed sleep: readings 62 seconds apart can
      fall on either side of the window, and then no reading is in it. */
  lemma WindowCanBeMissed(start: int)
    ensures EvenlyPolled([start - LeadSeconds - 1, start + 1], LeadSeconds + 2)
    ensures !Catches([start - LeadSeconds - 1, start + 1], start)
  {
  }

  // ---------------------------------------------------------------------
  // The same window on real-valued instants, as `total_seconds()` compares
  // them: with no smallest step, the 60-second bound is exact
  // ---------------------------------------------------------------------

  /** The lead on the real-valued timeline. */
  const LeadSecondsAt: real := LeadSeconds as real

  /** `is_time_to_join` on real-valued instants. */
  predicate IsTimeToJoinAt(start: real, now: real) {
    -LeadSecondsAt <= now - start <= 0.0
  }

  predicate EvenlyPolledAt(times: seq<real>, gap: real) {
    forall k :: 0 <= k < |times| - 1 ==> times[k] < times[k + 1] <= times[k] + gap
  }

  predicate CatchesAt(times: seq<real>, start: real) {
    exists k :: 0 <= k < |times| && IsTimeToJoinAt(start, times[k])
  }

  /** Readings at most 60 seconds apart that straddle the window land in it,
      whatever fractions of a second they carry. */
  lemma {:induction false} PollingCatchesWindowAt(times: seq<real>, start: real)
    requires |times| > 0
    requires EvenlyPolledAt(times, LeadSecondsAt)
    requires times[0] <= start
    requires start - LeadSecondsAt <= times[|times| - 1]
    ensures CatchesAt(times, start)
  {
    if !IsTimeToJoinAt(start, times[0]) {
      assert |times| > 1;
      assert EvenlyPolledAt(times[1..], LeadSecondsAt) by {
        forall k | 0 <= k < |times[1..]| - 1
          ensures times[1..][k] < times[1..][k + 1] <= times[1..][k] + LeadSecondsAt
        {
          assert times[1..][k] == times[k + 1];
          assert times[1..][k + 1] == times[k + 2];
        }
      }
      assert times[1] <= times[0] + LeadSecondsAt;
      PollingCatchesWindowAt(times[1..], start);
      var k :| 0 <= k < |times[1..]| && IsTimeToJoinAt(start, times[1..][k]);
      assert times[1..][k] == times[k + 1];
    }
  }

  /** Any gap longer than the window can miss it: readings half the excess
      before the window opens and half the excess after the start. */
  lemma AnyLongerGapCanMiss(start: real, gap: real)
    requires gap > LeadSecondsAt
    ensures var h := (gap - LeadSecondsAt) / 2.0;
      EvenlyPolledAt([start - LeadSecondsAt - h, start + h], gap)
    ensures var h := (gap - LeadSecondsAt) / 2.0;
      !CatchesAt([start - LeadSecondsAt - h, start + h], start)
  {
  }
}
