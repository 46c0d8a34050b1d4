/** One pass of the polling loop over the fetched events, and the loop as a
    sequence of such passes. The clock, the fetch and the start-text parser
    are inputs; opening the browser is an emitted action. */
module PollLoop {
  import opened Optional
  import opened CalendarEvent
  import opened MeetUrl
  import opened JoinWindow

  /** `datetime.fromisoformat` applied to a start text (after its `Z` suffix
      is rewritten to `+00:00`): the instant it denotes, in whole seconds on
      the clock's timeline, or `None` when the text does not parse. */
  type Parser = string -> Option<int>

  /** The browser is asked to open `url` for the event `id`. */
  datatype JoinAction = JoinAction(id: string, url: string)

  /** The joined set after a pass, the browser actions in order, and whether
      the pass ended with an uncaught exception (which ends the program). */
  datatype TickResult = TickResult(joined: set<string>, actions: seq<JoinAction>, crashed: bool)

  /** What the loop body does with one event. */
  datatype Decision =
    | AlreadyJoined   // id already in the joined set
    | NoUrl           // no truthy join URL
    | AllDay          // start text has no time part
    | Wait            // timed, but outside the join window
    | Join(url: string)
    | Fault           // `'T' in None` or an unparsable start raises

  // ---------------------------------------------------------------------
  // What the loop body reads from an event
  // ---------------------------------------------------------------------

  /** The three things the loop body reads from one fetched event: its id,
      the join URL extracted from it and its start text. */
  datatype Candidate = Candidate(id: string, url: Option<string>, start: Option<string>)

  function View(e: Event): Candidate {
    Candidate(e.id, ExtractMeetUrl(e), StartText(e.start))
  }

  function Views(events: seq<Event>): (cs: seq<Candidate>)
    ensures |cs| == |events|
    ensures forall k :: 0 <= k < |events| ==> cs[k] == View(events[k])
    ensures forall e :: e in events ==> View(e) in cs
  {
    seq(|events|, k requires 0 <= k < |events| => View(events[k]))
  }

  /** The start text exists and has no `T`: an all-day event. */
  predicate IsDateOnly(c: Candidate) {
    c.start.Some? && 'T' !in c.start.value
  }

  /** The instant of a start text with a time part that parses; nothing for
      a missing, date-only or unparsable start. */
  function TimedStart(start: Option<string>, parse: Parser): Option<int>
  {
    match start
    case None => None
    case Some(text) => if 'T' in text then parse(text) else None
  }

  /** The event, if not yet joined, is joined at time `now`: it has a truthy
      URL and a timed start whose window contains `now`. */
  predicate Eligible(c: Candidate, now: int, parse: Parser) {
    && Truthy(c.url)
    && TimedStart(c.start, parse).Some?
    && IsTimeToJoin(TimedStart(c.start, parse).value, now)
  }

  /** The event, if not yet joined, makes the loop raise: it has a truthy URL
      but no start text, or a timed start text that does not parse. */
  predicate Faulty(c: Candidate, parse: Parser) {
    && Truthy(c.url)
    && (c.start.None? || ('T' in c.start.value && parse(c.start.value).None?))
  }

  /** The body of `for event in events`, checks in the source's order. */
  function Decide(c: Candidate, joined: set<string>, now: int, parse: Parser): (d: Decision)
    ensures d.AlreadyJoined? <==> c.id in joined
    ensures d.NoUrl? <==> c.id !in joined && !Truthy(c.url)
    ensures d.Join? <==> c.id !in joined && Eligible(c, now, parse)
    ensures d.Join? ==> c.url == Some(d.url)
    ensures d.Fault? <==> c.id !in joined && Faulty(c, parse)
    ensures d.AllDay? <==> c.id !in joined && Truthy(c.url) && IsDateOnly(c)
    ensures d.Wait? <==> && c.id !in joined && Truthy(c.url) && TimedStart(c.start, parse).Some?
                         && !IsTimeToJoin(TimedStart(c.start, parse).value, now)
  {
    if c.id in joined then AlreadyJoined
    else if !Truthy(c.url) then NoUrl
    else match c.start
      case None => Fault
      case Some(text) =>
        if 'T' !in text then AllDay
        else match parse(text)
          case None => Fault
          case Some(t) => if IsTimeToJoin(t, now) then Join(c.url.value) else Wait
  }

  // ---------------------------------------------------------------------
  // One tick
  // ---------------------------------------------------------------------

  function OpenedIds(acts: seq<JoinAction>): set<string> {
    set a | a in acts :: a.id
  }

  /** No event id is opened twice. */
  predicate DistinctIds(acts: seq<JoinAction>) {
    forall k, l :: 0 <= k < l < |acts| ==> acts[k].id != acts[l].id
  }

  lemma OpenedIdsCons(a: JoinAction, acts: seq<JoinAction>)
    ensures OpenedIds([a] + acts) == {a.id} + OpenedIds(acts)
  {
  }

  lemma OpenedIdsAppend(xs: seq<JoinAction>, ys: seq<JoinAction>)
    ensures OpenedIds(xs + ys) == OpenedIds(xs) + OpenedIds(ys)
  {
  }

  /** One tick of the loop over the fetched `events`, with the joined set
      carried from earlier ticks: the joined set grows by exactly the ids
      opened, no opened id was joined before, and no id is opened twice. */
  function Tick(events: seq<Candidate>, joined: set<string>, now: int, parse: Parser): (r: TickResult)
    ensures r.joined == joined + OpenedIds(r.actions)
    ensures forall k :: 0 <= k < |r.actions| ==> r.actions[k].id !in joined
    ensures DistinctIds(r.actions)
    decreases |events|
  {
    if |events| == 0 then TickResult(joined, [], false)
    else
      var c := events[0];
      match Decide(c, joined, now, parse)
      case Fault => TickResult(joined, [], true)
      case Join(url) =>
        var rest := Tick(events[1..], joined + {c.id}, now, parse);
        var act := JoinAction(c.id, url);
        OpenedIdsCons(act, rest.actions);
        assert forall k :: 0 < k < |[act] + rest.actions| ==> ([act] + rest.actions)[k] == rest.actions[k - 1];
        TickResult(rest.joined, [act] + rest.actions, rest.crashed)
      case _ => Tick(events[1..], joined, now, parse)
  }

  /** Every browser action of a tick comes from a fetched event with that id
      that was eligible at `now`, and opens that event's join URL. */
  predicate Justified(a: JoinAction, events: seq<Candidate>, now: int, parse: Parser) {
    exists c :: c in events && c.id == a.id && Eligible(c, now, parse) && c.url == Some(a.url)
  }

  lemma {:induction false} TickSound(events: seq<Candidate>, joined: set<string>, now: int, parse: Parser)
    ensures forall a :: a in Tick(events, joined, now, parse).actions ==> Justified(a, events, now, parse)
    decreases |events|
  {
    if |events| > 0 {
      var c := events[0];
      var r := Tick(events, joined, now, parse);
      var joined' := if Decide(c, joined, now, parse).Join? then joined + {c.id} else joined;
      TickSound(events[1..], joined', now, parse);
      forall a | a in r.actions
        ensures Justified(a, events, now, parse)
      {
        if a !in Tick(events[1..], joined', now, parse).actions {
          assert a == JoinAction(c.id, Decide(c, joined, now, parse).url);
          assert c in events;
        } else {
          var c' :| c' in events[1..] && c'.id == a.id && Eligible(c', now, parse) && c'.url == Some(a.url);
          assert c' in events;
        }
      }
    }
  }

  /** A tick that runs to the end joins every fetched event that is eligible
      at `now` (unless its id was joined before). */
  lemma {:induction false} TickComplete(events: seq<Candidate>, joined: set<string>, now: int, parse: Parser)
    ensures !Tick(events, joined, now, parse).crashed ==>
      forall c :: c in events && Eligible(c, now, parse) ==> c.id in Tick(events, joined, now, parse).joined
    decreases |events|
  {
    if |events| > 0 && !Tick(events, joined, now, parse).crashed {
      var c := events[0];
      var joined' := if Decide(c, joined, now, parse).Join? then joined + {c.id} else joined;
      var rest := Tick(events[1..], joined', now, parse);
      assert !Decide(c, joined, now, parse).Fault?;
      TickComplete(events[1..], joined', now, parse);
      forall c' | c' in events && Eligible(c', now, parse)
        ensures c'.id in rest.joined
      {
        if c' !in events[1..] {
          assert c' == c;
          assert c.id in joined';
        }
      }
    }
  }

  /** The ids of the fetched events that are eligible at `now`. */
  function EligibleIds(events: seq<Candidate>, now: int, parse: Parser): set<string> {
    set c | c in events && Eligible(c, now, parse) :: c.id
  }

  /** A tick that runs to the end adds to the joined set exactly the ids of
      the eligible fetched events, and opens exactly those not joined before. */
  lemma {:induction false} TickJoinedExactly(events: seq<Candidate>, joined: set<string>, now: int, parse: Parser)
    ensures !Tick(events, joined, now, parse).crashed ==>
      && Tick(events, joined, now, parse).joined == joined + EligibleIds(events, now, parse)
      && OpenedIds(Tick(events, joined, now, parse).actions) == EligibleIds(events, now, parse) - joined
  {
    var r := Tick(events, joined, now, parse);
    TickSound(events, joined, now, parse);
    TickComplete(events, joined, now, parse);
    forall x | x in OpenedIds(r.actions)
      ensures x in EligibleIds(events, now, parse)
    {
      var a :| a in r.actions && a.id == x;
      assert Justified(a, events, now, parse);
    }
  }

  /** An id none of whose fetched events is eligible at `now` (no truthy URL,
      an all-day start, or a start outside the window) is not opened and not
      added to the joined set. */
  lemma {:induction false} IneligibleNeverJoined(events: seq<Candidate>, joined: set<string>, now: int, parse: Parser, x: string)
    requires x !in joined
    requires forall c :: c in events && c.id == x ==> !Eligible(c, now, parse)
    ensures x !in OpenedIds(Tick(events, joined, now, parse).actions)
    ensures x !in Tick(events, joined, now, parse).joined
  {
    var r := Tick(events, joined, now, parse);
    TickSound(events, joined, now, parse);
    forall a | a in r.actions
      ensures a.id != x
    {
      assert Justified(a, events, now, parse);
    }
  }

  /** Neither an event without a truthy URL nor an all-day event is ever
      eligible, whatever the time. */
  lemma NoUrlOrDateOnlyNeverEligible(e: Event, now: int, parse: Parser)
    requires !Truthy(ExtractMeetUrl(e)) || IsDateOnly(View(e))
    ensures !Eligible(View(e), now, parse)
  {
  }

  /** A tick that raises met a fetched, not-yet-joined event with a truthy URL
      and a missing or unparsable start. */
  lemma {:induction false} TickCrashCause(events: seq<Candidate>, joined: set<string>, now: int, parse: Parser)
    ensures Tick(events, joined, now, parse).crashed ==>
      exists c :: c in events && c.id !in joined && Faulty(c, parse)
    decreases |events|
  {
    if |events| > 0 && Tick(events, joined, now, parse).crashed {
      var c := events[0];
      var d := Decide(c, joined, now, parse);
      if d.Fault? {
        assert c in events;
      } else {
        var joined' := if d.Join? then joined + {c.id} else joined;
        TickCrashCause(events[1..], joined', now, parse);
        var c' :| c' in events[1..] && c'.id !in joined' && Faulty(c', parse);
        assert c' in events;
      }
    }
  }

  /** Conversely, a tick whose not-yet-joined events all have a parsable start
      (or no URL) runs to the end. */
  lemma {:induction false} TickRunsToEnd(events: seq<Candidate>, joined: set<string>, now: int, parse: Parser)
    requires forall c :: c in events && c.id !in joined ==> !Faulty(c, parse)
    ensures !Tick(events, joined, now, parse).crashed
    decreases |events|
  {
    if |events| > 0 {
      var c := events[0];
      var d := Decide(c, joined, now, parse);
      assert c in events;
      var joined' := if d.Join? then joined + {c.id} else joined;
      assert forall c' :: c' in events[1..] ==> c' in events;
      TickRunsToEnd(events[1..], joined', now, parse);
    }
  }

  // ---------------------------------------------------------------------
  // The loop: one tick per poll, until an exception ends the program
  // ---------------------------------------------------------------------

  /** One iteration of `while True`: the fetch outcome and the clock reading. */
  datatype Poll = Poll(fetch: FetchOutcome, now: int)

  /** The events a poll hands to the loop body, as the body reads them;
      nothing when the fetch raised. */
  function PollCandidates(p: Poll): seq<Candidate> {
    match TodayEvents(p.fetch)
    case Some(events) => Views(events)
    case None => []
  }

  /** The tick of one poll: an exception out of the fetch ends the program
      before any event is looked at; otherwise the loop body runs over the
      fetched events. */
  function PollTick(p: Poll, joined: set<string>, parse: Parser): (r: TickResult)
    ensures r.joined == joined + OpenedIds(r.actions)
    ensures forall k :: 0 <= k < |r.actions| ==> r.actions[k].id !in joined
    ensures DistinctIds(r.actions)
    ensures p.fetch.OtherFailure? ==> r.crashed && r.actions == []
  {
    match TodayEvents(p.fetch)
    case None => TickResult(joined, [], true)
    case Some(events) => Tick(Views(events), joined, p.now, parse)
  }

  /** A poll whose request fails with an `HttpError` opens nothing, leaves the
      joined set as it was, and lets the loop go on. */
  lemma FailedFetchChangesNothing(message: string, now: int, joined: set<string>, parse: Parser)
    ensures PollTick(Poll(HttpFailure(message), now), joined, parse) == TickResult(joined, [], false)
  {
  }

  /** A poll whose request fails with any other exception ends the loop then
      and there: no later poll runs and nothing more is opened. */
  lemma UncaughtFetchFailureEndsRun(polls: seq<Poll>, joined: set<string>, parse: Parser)
    requires |polls| > 0 && polls[0].fetch.OtherFailure?
    ensures Run(polls, joined, parse) == TickResult(joined, [], true)
  {
  }

  /** When the start carries `dateTime`, its `date` plays no part: the loop
      body decides the same whatever `date` holds. */
  lemma DateTimeTakesPrecedence(e: Event, date: Option<string>, joined: set<string>, now: int, parse: Parser)
    requires e.start.dateTime.Some?
    ensures Decide(View(e.(start := e.start.(date := date))), joined, now, parse) == Decide(View(e), joined, now, parse)
  {
  }

  /** The loop over a finite prefix of its polls, starting from `joined`:
      across all ticks the joined set grows by exactly the opened ids, and no
      id is opened twice, even when later ticks fetch the same event again. */
  function Run(polls: seq<Poll>, joined: set<string>, parse: Parser): (r: TickResult)
    ensures r.joined == joined + OpenedIds(r.actions)
    ensures forall k :: 0 <= k < |r.actions| ==> r.actions[k].id !in joined
    ensures DistinctIds(r.actions)
    decreases |polls|
  {
    if |polls| == 0 then TickResult(joined, [], false)
    else
      var t := PollTick(polls[0], joined, parse);
      if t.crashed then t
      else
        var rest := Run(polls[1..], t.joined, parse);
        OpenedIdsAppend(t.actions, rest.actions);
        assert forall k :: |t.actions| <= k < |t.actions + rest.actions| ==>
          (t.actions + rest.actions)[k] == rest.actions[k - |t.actions|];
        assert forall k :: 0 <= k < |t.actions| ==> t.actions[k] in t.actions;
        TickResult(rest.joined, t.actions + rest.actions, rest.crashed)
  }

  /** If the loop runs without raising, an event fetched by some poll at a time
      it was eligible ends up joined. */
  lemma {:induction false} RunJoinsEligible(polls: seq<Poll>, joined: set<string>, parse: Parser, k: nat, c: Candidate)
    requires k < |polls|
    requires c in PollCandidates(polls[k])
    requires Eligible(c, polls[k].now, parse)
    ensures !Run(polls, joined, parse).crashed ==> c.id in Run(polls, joined, parse).joined
    decreases |polls|
  {
    var t := PollTick(polls[0], joined, parse);
    if !Run(polls, joined, parse).crashed {
      assert !t.crashed;
      if k == 0 {
        TickComplete(PollCandidates(polls[0]), joined, polls[0].now, parse);
      } else {
        assert polls[1..][k - 1] == polls[k];
        RunJoinsEligible(polls[1..], t.joined, parse, k - 1, c);
      }
    }
  }

  /** Every browser action of one poll comes from an event that poll fetched,
      eligible at the poll's clock reading, and opens that event's URL. */
  lemma PollTickSound(p: Poll, joined: set<string>, parse: Parser)
    ensures forall a :: a in PollTick(p, joined, parse).actions ==> Justified(a, PollCandidates(p), p.now, parse)
  {
    match TodayEvents(p.fetch)
    case None =>
    case Some(events) => TickSound(Views(events), joined, p.now, parse);
  }

  /** Some poll of `polls` fetched an event that justifies the action `a`. */
  predicate RunJustified(a: JoinAction, polls: seq<Poll>, parse: Parser) {
    exists k :: 0 <= k < |polls| && Justified(a, PollCandidates(polls[k]), polls[k].now, parse)
  }

  /** Every browser action of the loop comes from an event that some poll
      fetched while it was eligible at that poll's clock reading: no tick
      catches up on a window that fell between two polls. */
  lemma {:induction false} RunSound(polls: seq<Poll>, joined: set<string>, parse: Parser)
    ensures forall a :: a in Run(polls, joined, parse).actions ==> RunJustified(a, polls, parse)
    decreases |polls|
  {
    if |polls| > 0 {
      var t := PollTick(polls[0], joined, parse);
      PollTickSound(polls[0], joined, parse);
      if !t.crashed {
        var rest := Run(polls[1..], t.joined, parse);
        RunSound(polls[1..], t.joined, parse);
        forall a | a in Run(polls, joined, parse).actions
          ensures RunJustified(a, polls, parse)
        {
          if a in t.actions {
            assert Justified(a, PollCandidates(polls[0]), polls[0].now, parse);
          } else {
            assert a in rest.actions;
            var k :| 0 <= k < |polls[1..]| && Justified(a, PollCandidates(polls[1..][k]), polls[1..][k].now, parse);
            assert polls[1..][k] == polls[k + 1];
          }
        }
      } else {
        forall a | a in Run(polls, joined, parse).actions
          ensures RunJustified(a, polls, parse)
        {
          assert Justified(a, PollCandidates(polls[0]), polls[0].now, parse);
        }
      }
    }
  }

  /** An id none of whose fetched events is eligible at the clock reading of
      the poll that fetched it is neither opened nor joined by the loop. */
  lemma {:induction false} RunIneligibleNeverJoined(polls: seq<Poll>, joined: set<string>, parse: Parser, x: string)
    requires x !in joined
    requires forall k, c :: 0 <= k < |polls| && c in PollCandidates(polls[k]) && c.id == x ==>
      !Eligible(c, polls[k].now, parse)
    ensures x !in OpenedIds(Run(polls, joined, parse).actions)
    ensures x !in Run(polls, joined, parse).joined
  {
    var r := Run(polls, joined, parse);
    RunSound(polls, joined, parse);
    forall a | a in r.actions
      ensures a.id != x
    {
      assert RunJustified(a, polls, parse);
    }
  }

  /** The gap of a fixed sleep, through the loop: a meeting whose window
      contains none of the polls' clock readings is never joined, however
      often it is fetched. */
  lemma MissedWindowNeverJoined(polls: seq<Poll>, joined: set<string>, parse: Parser, e: Event, t: int)
    requires e.id !in joined
    requires forall k, c :: 0 <= k < |polls| && c in PollCandidates(polls[k]) && c.id == e.id ==> c == View(e)
    requires TimedStart(StartText(e.start), parse) == Some(t)
    requires forall k :: 0 <= k < |polls| ==> !IsTimeToJoin(t, polls[k].now)
    ensures e.id !in Run(polls, joined, parse).joined
  {
    RunIneligibleNeverJoined(polls, joined, parse, e.id);
  }

  /** The clock readings of the polls, in order. */
  function PollTimes(polls: seq<Poll>): (times: seq<int>)
    ensures |times| == |polls|
    ensures forall k :: 0 <= k < |polls| ==> times[k] == polls[k].now
    decreases |polls|
  {
    if |polls| == 0 then [] else [polls[0].now] + PollTimes(polls[1..])
  }

  /** A meeting that every poll fetches, with a truthy URL and a timed start,
      is joined by a loop that runs without raising when its ticks are at most
      60 seconds apart and span the join window. */
  lemma RunJoinsMeetingPolledInTime(polls: seq<Poll>, joined: set<string>, parse: Parser, e: Event, t: int)
    requires |polls| > 0
    requires forall k :: 0 <= k < |polls| ==> polls[k].fetch.Fetched? && e in polls[k].fetch.items
    requires Truthy(ExtractMeetUrl(e)) && TimedStart(StartText(e.start), parse) == Some(t)
    requires EvenlyPolled(PollTimes(polls), LeadSeconds)
    requires polls[0].now <= t && t - LeadSeconds <= polls[|polls| - 1].now
    ensures !Run(polls, joined, parse).crashed ==> e.id in Run(polls, joined, parse).joined
  {
    var times := PollTimes(polls);
    PollingCatchesWindow(times, t);
    var k :| 0 <= k < |times| && IsTimeToJoin(t, times[k]);
    assert View(e) in PollCandidates(polls[k]);
    assert Eligible(View(e), polls[k].now, parse);
    RunJoinsEligible(polls, joined, parse, k, View(e));
  }
}
