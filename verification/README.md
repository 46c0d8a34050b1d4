# auto-join-meet: the join decision, in Dafny

The program polls a calendar service for today's events. It opens a meeting's
video link in the browser during the minute before the meeting starts, and it
joins each meeting only once. This project models the decision path that runs
for every fetched event on every polling tick, and proves properties of it:

- **Join-URL extraction** (`extract_google_meet_url`). Structured conference
  data is checked first. If it has a video entry point, that entry's `uri` is
  returned, even when the `uri` is missing. Otherwise the description is
  searched for the first match of `https://meet\.google\.com/[a-z-]+`. The
  regular expression is written out by hand: the leftmost start position, then
  the greedy (maximal) run of `[a-z-]`.
- **Join window** (`is_time_to_join`). The window is open when
  `-60 <= now - start <= 0`, with times in whole seconds on one
  timezone-normalised timeline.
- **One tick of the loop** (the body of `for event in events`). The checks run
  in the source's order: already joined, no truthy URL, no start text (which
  raises), date-only start, unparsable start (which raises), window. An event
  that passes all of them gives a browser action, and its id joins the set at
  once.
- **The loop**, as a finite sequence of polls. Each poll carries a fetch
  outcome and a clock reading. An `HttpError` from the request counts as an
  empty event list. Any other exception from the request, and any exception in
  the loop body, ends the program.

Modules, one per concern:

- `Optional`: the option type.
- `CalendarEvent`: the event record, the start text, and the fetch outcome.
- `MeetUrl`: the extractor and the hand-written matcher.
- `JoinWindow`: the predicate and how it interacts with the polling interval,
  on whole seconds and on real-valued instants.
- `PollLoop`: the per-event decision, `Tick` and `Run`. The loop body reads
  three things from an event: its id, the URL extracted from it and its start
  text. `Tick` works on that view (`Candidate`), and `PollTick` builds it from
  a poll's fetched events. Extraction is pure, so computing it before the
  joined-set check changes nothing.
- `Scenarios`: worked examples.

The clock, the result of `fromisoformat` and the calendar fetch are
parameters. `Tick` takes `now` and a `Parser`, and `Run` takes a sequence of
`Poll(fetch, now)`. Opening the browser is an emitted `JoinAction(id, url)`.

Two points of the code shape the extractor:

- A video entry point's `uri` is returned as it is, by `entry_point.get('uri')`
  (main.py:74). So a video entry without a `uri` gives nothing, and the
  description is not searched.
- The text pattern names `https://meet.google.com/` literally (main.py:77). No
  other provider domain matches.

## Model

| member | source | states |
|---|---|---|
| MeetUrl.FirstVideoFrom | main.py:72-73 | the result is the first position holding a video entry point; `None` means no entry point is a video one |
| MeetUrl.RunEnd | main.py:77 | the run of `[a-z-]` from `j` is maximal: every character before the end is in the class, and the character at the end (if any) is not |
| MeetUrl.MatchFrom | main.py:77-78 | the result is the leftmost position at or after `i` where the prefix is followed by a class character; `None` means no such position exists |
| MeetUrl.LinkAt | main.py:77-80 | the link taken at a match is a full match of the pattern, is a substring of the text, starts at the match, and is not followed by a class character |
| MeetUrl.FindMeetLink | main.py:76-82 | `None` exactly when the pattern matches nowhere; otherwise a full match that is a substring of the description, starting at the leftmost match position and extending over the maximal run |
| MeetUrl.ExtractMeetUrl | main.py:65-82 | with a video entry point, the first one's `uri` is the result, even when missing and whatever the description says; without one, the result is the description's first link |
| JoinWindow.WindowBounds | main.py:84-92 | join iff `start - 60 <= now <= start`; false 61 or more seconds early and 1 or more seconds late |
| JoinWindow.PollingCatchesWindow | main.py:114-151 | clock readings at most 60 seconds apart that span the window include one inside it |
| JoinWindow.PollingCatchesWindowAt | main.py:84-92 | the same on real-valued instants, as `total_seconds()` gives them: readings at most 60 seconds apart that span the window include one inside it, whatever their fractions of a second |
| JoinWindow.AnyLongerGapCanMiss | main.py:89-92 | on real-valued instants, for every gap over 60 seconds there are two readings that far apart on either side of the window, neither inside it |
| JoinWindow.WindowCanBeMissed | main.py:89-92 | two readings 62 seconds apart can straddle the window with neither inside it |
| PollLoop.Decide | main.py:121-142 | skip exactly when the id is joined or the URL is not truthy; join exactly when fresh and eligible (truthy URL, timed start inside the window), opening the extracted URL; raise exactly when fresh with a truthy URL and a missing or unparsable start; skip as all-day exactly when fresh with a truthy URL and a date-only start; wait exactly when fresh with a truthy URL and a timed start outside the window |
| PollLoop.Tick | main.py:120-142 | the joined set grows by exactly the opened ids; no opened id was joined before; no id is opened twice in a tick, even when it is fetched twice |
| PollLoop.TickSound | main.py:129-142 | every action comes from a fetched event with that id that is eligible at `now`, and opens that event's URL |
| PollLoop.TickComplete | main.py:134-142 | a tick that does not raise leaves the id of every eligible fetched event in the joined set |
| PollLoop.TickJoinedExactly | main.py:120-142 | a tick that does not raise adds exactly the ids of the eligible fetched events, and opens exactly those that were not joined before |
| PollLoop.IneligibleNeverJoined | main.py:129-142 | an id none of whose fetched events is eligible is neither opened nor added |
| PollLoop.NoUrlOrDateOnlyNeverEligible | main.py:129-135 | an event whose extracted URL is not truthy, or whose start is date-only, is never eligible, at any time |
| PollLoop.TickCrashCause | main.py:134-136 | a tick that raises met a fresh event with a truthy URL and a missing or unparsable start |
| PollLoop.TickRunsToEnd | main.py:134-136 | if no fresh event has a truthy URL together with a missing or unparsable start, the tick does not raise |
| PollLoop.PollTick | main.py:118-142 | one poll keeps the joined-set invariants of a tick; a request that raises anything but `HttpError` ends the program with nothing opened |
| PollLoop.FailedFetchChangesNothing | main.py:61-63 | a poll whose request raises `HttpError` opens nothing, leaves the joined set as it was, and does not end the loop |
| PollLoop.UncaughtFetchFailureEndsRun | main.py:48-63 | a request that raises anything but `HttpError` is not caught: the loop ends at that poll with nothing opened and no later poll run |
| PollLoop.DateTimeTakesPrecedence | main.py:134 | when the start carries `dateTime`, the decision is the same whatever `date` holds |
| PollLoop.Run | main.py:114-159 | over many ticks the joined set grows by exactly the opened ids, and an id is opened at most once in the whole run, even when later ticks fetch it again |
| PollLoop.RunJoinsEligible | main.py:114-142 | if the loop does not raise, an event fetched by some poll while eligible ends up joined |
| PollLoop.PollTickSound | main.py:118-142 | every browser action of one poll comes from an event that poll fetched, eligible at its clock reading |
| PollLoop.RunSound | main.py:114-142 | every browser action of the loop comes from an event some poll fetched while it was eligible at that poll's clock reading, and opens that event's URL |
| PollLoop.RunIneligibleNeverJoined | main.py:114-142 | an id none of whose fetched events was eligible at its poll's clock reading is never opened and never joined |
| PollLoop.MissedWindowNeverJoined | main.py:114-151 | a meeting whose window contains none of the polls' clock readings is never joined, however often it is fetched: no later tick catches up |
| PollLoop.RunJoinsMeetingPolledInTime | main.py:114-151 | a meeting with a truthy URL and a timed start, fetched by every poll, is joined when the polls are at most 60 seconds apart and span its window |
| Scenarios.StructuredEntryWins | main.py:70-74 | a structured video link is chosen over a phone entry before it and over a link in the description |
| Scenarios.VideoEntryWithoutUri | main.py:72-74 | a video entry point without a `uri` gives nothing, even when the description has a link |
| Scenarios.LinkAfterPlainText | main.py:76-80 | text with no `h`, then the prefix, then a run of class characters that ends the text: the link found is the prefix plus the whole run |
| Scenarios.DescriptionFallback | main.py:76-80 | "Join: https://meet.google.com/abc-defg-hij" gives "https://meet.google.com/abc-defg-hij" |
| Scenarios.WindowExamples | main.py:89-92 | 30 seconds before a start the window is open; 30 seconds after, it is closed |
| Scenarios.MeetingFacts | main.py:129-142 | a timed meeting with a structured link is joined at 09:59:30 for a 10:00:00 start |
| Scenarios.JoinedMeetingIsSkipped | main.py:124-142 | a fresh meeting in its window is opened and recorded; the same meeting already joined is skipped |
| Scenarios.DuplicateOpenedOnce | main.py:120-142 | a meeting fetched twice in one list is opened once |
| Scenarios.MeetingMissedBetweenPolls | main.py:114-151 | polls at 09:58:59 and 10:00:01 both fetch a 10:00:00 meeting and neither joins it |
| Scenarios.AllDayEventIsIgnored | main.py:134-135 | an all-day event with a video link is not opened at any time |

## Left out

- `authenticate_google_calendar` (credential file, pickle, OAuth flow) is left out. It is file I/O and calls into client libraries.
- The calendar request in `get_today_events` is left out. It is an HTTP call. Its result enters the model as a `FetchOutcome`: the items, an `HttpError` (caught, giving the empty list) or any other exception (not caught, ending the program).
- `webbrowser.open_new` is left out. It is a browser side effect, and the model emits a `JoinAction` instead.
- The console output is left out, because it is informational only. This covers the tick banner, the join announcements, the countdown in minutes (lines 143-148) and the event `summary`, which is only printed.
- `time.sleep(60)` and the infinite loop are left out, because they are process plumbing. `Run` covers any finite prefix of polls, with the clock readings as inputs.
- `KeyboardInterrupt` is left out, because it is external. An uncaught exception is modelled only as the end of the run (`crashed`).
- `datetime.now`, timezones and `fromisoformat` are abstracted. Instants are whole seconds on one timeline. The `Z` rewrite and the parse are the `Parser` parameter, where `None` stands for the `ValueError` of an unparsable text.
- Tick: it reads the clock once per tick. The source reads it again for each event inside `is_time_to_join`, so events late in a slow tick see a slightly later time.
- JoinWindow.PollingCatchesWindow: stated for gaps of at most 60 seconds. On a whole-second clock a 61-second gap cannot miss either. The source's clock counts whole microseconds, so a gap of 60.000001 seconds cannot miss there, but any gap of 60.000002 seconds or more can: one reading at start - 60.000001 s and the next at start + 0.000001 s both fall outside. `AnyLongerGapCanMiss` shows the same on real-valued instants, for every gap over 60 seconds. The source's gap is 60 seconds of sleep plus the fetch time, which takes well over two microseconds, so a meeting can be missed.
- PollLoop.RunJoinsMeetingPolledInTime: inherits the 60-second bound of PollingCatchesWindow, for the same reason. The real loop's polls are always more than 60 seconds apart, so this guarantee does not cover it. `MissedWindowNeverJoined` states the other side: a meeting whose window no poll reading falls in is never joined.
- JoinWindow.IsTimeToJoin: uses whole seconds. The source compares the float `total_seconds()`, so a sub-second offset near either edge can go the other way.
- Missing `id` or `start` keys are left out. The model's `Event` always carries both, as the calendar API supplies them. In the source they would raise `KeyError`.
- A `description`, `entryPoints` or `conferenceData` key present with a JSON `null` value is left out. In the source that would raise inside `re.findall`, in the `for` loop, or in `.get` on `None` (main.py:71). An absent key is modelled, as the empty string or the empty list.
