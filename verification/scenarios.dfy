/** Worked examples of the decision path: concrete events, clock readings
    and their outcomes. */
module Scenarios {
  import opened Optional
  import opened CalendarEvent
  import opened MeetUrl
  import opened JoinWindow
  import opened PollLoop

  const NoStart := StartField(None, None)

  /** A structured video entry point wins over the description. */
  lemma StructuredEntryWins()
    ensures ExtractMeetUrl(Event("a", Some(ConferenceData([EntryPoint(Some("phone"), Some("tel:+1")),
                                                           EntryPoint(Some("video"), Some("https://meet.x.com/abc-defg"))])),
                                 "see https://meet.google.com/zzz", NoStart))
            == Some("https://meet.x.com/abc-defg")
  {
  }

  /** A video entry point without a `uri` yields nothing, even though the
      description holds a link. */
  lemma VideoEntryWithoutUri()
    ensures ExtractMeetUrl(Event("b", Some(ConferenceData([EntryPoint(Some("video"), None)])),
                                 "see https://meet.google.com/zzz", NoStart))
            == None
  {
  }

  /** The pattern starts with `h`, so it matches at no position of a text
      without one, whatever follows that text. */
  lemma NoMatchInPlainText(head: string, rest: string, j: int)
    requires 'h' !in head && 0 <= j < |head|
    ensures !MatchAt(head + rest, j)
  {
    var s := head + rest;
    assert s[j] == head[j] != MeetPrefix[0];
    if j + |MeetPrefix| < |s| {
      assert s[j..j + |MeetPrefix|][0] == s[j];
    }
  }

  /** A description made of text without an `h`, then the prefix, then a
      non-empty run of class characters that ends the text: its first link
      is the prefix with that whole run. */
  lemma LinkAfterPlainText(head: string, tail: string)
    requires 'h' !in head
    requires |tail| > 0 && forall k :: 0 <= k < |tail| ==> IsLinkChar(tail[k])
    ensures FindMeetLink(head + MeetPrefix + tail) == Some(MeetPrefix + tail)
  {
    var s := head + MeetPrefix + tail;
    var i := |head|;
    assert s[i..] == MeetPrefix + tail;
    LeftmostAfterPlainText(head, tail);
    forall k | i + |MeetPrefix| <= k < |s|
      ensures IsLinkChar(s[k])
    {
      assert s[k] == tail[k - i - |MeetPrefix|];
    }
    LinkRunsToEnd(s, i);
  }

  /** Text without an `h` followed by the prefix and a class character: the
      leftmost match is right after that text. */
  lemma LeftmostAfterPlainText(head: string, tail: string)
    requires 'h' !in head
    requires |tail| > 0 && IsLinkChar(tail[0])
    ensures LeftmostMatchAt(head + MeetPrefix + tail, |head|)
  {
    var s := head + MeetPrefix + tail;
    var i := |head|;
    assert s[i..i + |MeetPrefix|] == MeetPrefix;
    assert s[i + |MeetPrefix|] == tail[0];
    assert s == head + (MeetPrefix + tail);
    forall j | 0 <= j < i
      ensures !MatchAt(s, j)
    {
      NoMatchInPlainText(head, MeetPrefix + tail, j);
    }
  }

  /** When class characters run from the leftmost match to the end of the
      text, the link found is the whole rest of the text. */
  lemma LinkRunsToEnd(s: string, i: int)
    requires LeftmostMatchAt(s, i)
    requires forall k :: i + |MeetPrefix| <= k < |s| ==> IsLinkChar(s[k])
    ensures FindMeetLink(s) == Some(s[i..])
  {
    var r := FindMeetLink(s);
    assert r.Some? && r.value <= s[i..];
    var u := r.value;
    assert |u| > |MeetPrefix|;
    assert i + |u| == |s|;
    assert u == s[i..] by {
      assert u == s[i..][..|u|];
    }
  }

  /** Without conference data the first link in the description is taken:
      for "Join: https://meet.google.com/abc-defg-hij" it is the whole link. */
  lemma DescriptionFallback()
    ensures ExtractMeetUrl(Event("c", None, "Join: " + MeetPrefix + "abc-defg-hij", NoStart))
            == Some(MeetPrefix + "abc-defg-hij")
  {
    var tail := "abc-defg-hij";
    assert forall k :: 0 <= k < |tail| ==> IsLinkChar(tail[k]);
    LinkAfterPlainText("Join: ", tail);
  }

  /** 30 seconds before a 10:00:00 start the window is open; 30 seconds
      after, it is closed. */
  lemma WindowExamples()
    ensures IsTimeToJoin(36000, 35970)
    ensures !IsTimeToJoin(36000, 36030)
  {
  }

  const MeetingUrl: string := "https://meet.x.com/abc-defg"
  const TenOClock: string := "2024-01-01T10:00:00+00:00"

  /** A parser for the examples: every start text denotes 10:00:00, which is
      second 36000 of the example timeline. */
  function ParseAtTen(text: string): Option<int> {
    Some(36000)
  }

  /** A timed meeting with a structured video link, starting at 10:00:00. */
  function Meeting(id: string): Event {
    Event(id, Some(ConferenceData([EntryPoint(Some(VideoType), Some(MeetingUrl))])), "",
          StartField(Some(TenOClock), None))
  }

  lemma MeetingFacts(id: string)
    ensures ExtractMeetUrl(Meeting(id)) == Some(MeetingUrl)
    ensures Decide(View(Meeting(id)), {}, 35970, ParseAtTen) == Join(MeetingUrl)
  {
  }

  /** At 09:59:30 a fresh meeting is joined; the same meeting already in the
      joined set is skipped although its window is open. */
  lemma JoinedMeetingIsSkipped()
    ensures PollTick(Poll(Fetched([Meeting("m")]), 35970), {}, ParseAtTen) == TickResult({"m"}, [JoinAction("m", MeetingUrl)], false)
    ensures PollTick(Poll(Fetched([Meeting("m")]), 35970), {"m"}, ParseAtTen) == TickResult({"m"}, [], false)
  {
  }

  /** A meeting fetched twice in one list is opened once. */
  lemma DuplicateOpenedOnce()
    ensures PollTick(Poll(Fetched([Meeting("m"), Meeting("m")]), 35970), {}, ParseAtTen)
            == TickResult({"m"}, [JoinAction("m", MeetingUrl)], false)
  {
  }

  /** Polls at 09:58:59 and 10:00:01 straddle the window of a 10:00:00
      meeting: both fetch it, neither opens it. */
  lemma MeetingMissedBetweenPolls()
    ensures Run([Poll(Fetched([Meeting("m")]), 35939), Poll(Fetched([Meeting("m")]), 36001)], {}, ParseAtTen).joined == {}
  {
    var polls := [Poll(Fetched([Meeting("m")]), 35939), Poll(Fetched([Meeting("m")]), 36001)];
    forall k, c | 0 <= k < |polls| && c in PollCandidates(polls[k]) && c.id == "m"
      ensures c == View(Meeting("m"))
    {
      assert Views([Meeting("m")]) == [View(Meeting("m"))];
    }
    MissedWindowNeverJoined(polls, {}, ParseAtTen, Meeting("m"), 36000);
  }

  /** An all-day event with a video link is never joined. */
  lemma AllDayEventIsIgnored(now: int)
    ensures PollTick(Poll(Fetched([Meeting("m").(start := StartField(None, Some("2024-01-01")))]), now), {}, ParseAtTen)
            == TickResult({}, [], false)
  {
    var e := Meeting("m").(start := StartField(None, Some("2024-01-01")));
    assert FirstVideoAt(e.conferenceData.value.entryPoints, 0);
    assert 'T' !in "2024-01-01";
    assert Decide(View(e), {}, now, ParseAtTen) == AllDay;
    assert Views([e]) == [View(e)];
    assert Views([e])[1..] == [];
    assert TodayEvents(Fetched([e])) == Some([e]);
    assert Tick(Views([e])[1..], {}, now, ParseAtTen) == TickResult({}, [], false);
  }
}
