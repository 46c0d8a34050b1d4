/** Join-URL extraction: structured video entry points first, then the first
    Meet link pasted into the description, otherwise nothing. */
module MeetUrl {
  import opened Optional
  import opened CalendarEvent

  /** The entry-point type that marks a video entry point. */
  const VideoType: string := "video"

  /** The fixed part of the description pattern `https://meet\.google\.com/[a-z-]+`. */
  const MeetPrefix: string := "https://meet.google.com/"

  // ---------------------------------------------------------------------
  // Structured conference data
  // ---------------------------------------------------------------------

  predicate IsVideo(ep: EntryPoint) {
    ep.entryPointType == Some(VideoType)
  }

  /** `k` is the position of the first video entry point of `eps`. */
  predicate FirstVideoAt(eps: seq<EntryPoint>, k: int) {
    && 0 <= k < |eps|
    && IsVideo(eps[k])
    && forall j :: 0 <= j < k ==> !IsVideo(eps[j])
  }

  /** The event carries conference data with at least one video entry point. */
  predicate HasVideoEntry(e: Event) {
    && e.conferenceData.Some?
    && exists k :: 0 <= k < |e.conferenceData.value.entryPoints|
                   && IsVideo(e.conferenceData.value.entryPoints[k])
  }

  /** The position of the first video entry point at or after `from`. */
  function FirstVideoFrom(eps: seq<EntryPoint>, from: nat): (r: Option<nat>)
    requires from <= |eps|
    ensures r.Some? ==> from <= r.value < |eps| && IsVideo(eps[r.value])
    ensures r.Some? ==> forall j :: from <= j < r.value ==> !IsVideo(eps[j])
    ensures r.None? ==> forall j :: from <= j < |eps| ==> !IsVideo(eps[j])
    decreases |eps| - from
  {
    if from == |eps| then None
    else if IsVideo(eps[from]) then Some(from)
    else FirstVideoFrom(eps, from + 1)
  }

  // ---------------------------------------------------------------------
  // The description pattern, matched by hand
  // ---------------------------------------------------------------------

  /** The character class `[a-z-]`. */
  predicate IsLinkChar(c: char) {
    ('a' <= c <= 'z') || c == '-'
  }

  /** The pattern matches at position `i` of `s`: the prefix occurs there and
      is followed by at least one character of the class. */
  predicate MatchAt(s: string, i: int) {
    && 0 <= i
    && i + |MeetPrefix| < |s|
    && s[i..i + |MeetPrefix|] == MeetPrefix
    && IsLinkChar(s[i + |MeetPrefix|])
  }

  /** `i` is the leftmost position where the pattern matches. */
  predicate LeftmostMatchAt(s: string, i: int) {
    MatchAt(s, i) && forall j :: 0 <= j < i ==> !MatchAt(s, j)
  }

  /** A string the pattern matches in full: the prefix, then a non-empty run
      of lower-case letters and hyphens. */
  predicate IsMeetLink(u: string) {
    && |u| > |MeetPrefix|
    && u[..|MeetPrefix|] == MeetPrefix
    && forall k :: |MeetPrefix| <= k < |u| ==> IsLinkChar(u[k])
  }

  /** `u` occurs in `s` as a contiguous substring. */
  predicate IsSubstringOf(u: string, s: string) {
    exists i :: 0 <= i <= |s| && u <= s[i..]
  }

  /** The end of the longest run of class characters starting at `j`. */
  function RunEnd(s: string, j: nat): (k: nat)
    requires j <= |s|
    ensures j <= k <= |s|
    ensures forall m :: j <= m < k ==> IsLinkChar(s[m])
    ensures k < |s| ==> !IsLinkChar(s[k])
    decreases |s| - j
  {
    if j < |s| && IsLinkChar(s[j]) then RunEnd(s, j + 1) else j
  }

  /** The leftmost position at or after `i` where the pattern matches. */
  function MatchFrom(s: string, i: nat): (r: Option<nat>)
    requires i <= |s|
    ensures r.Some? ==> i <= r.value && MatchAt(s, r.value)
    ensures r.Some? ==> forall j :: i <= j < r.value ==> !MatchAt(s, j)
    ensures r.None? ==> forall j :: i <= j ==> !MatchAt(s, j)
    decreases |s| - i
  {
    if i == |s| then None
    else if MatchAt(s, i) then Some(i)
    else MatchFrom(s, i + 1)
  }

  /** The link that starts at a match position: the prefix and the maximal
      run of class characters after it. */
  function LinkAt(s: string, i: int): (u: string)
    requires MatchAt(s, i)
    ensures IsMeetLink(u) && IsSubstringOf(u, s)
    ensures u <= s[i..]
    ensures i + |u| < |s| ==> !IsLinkChar(s[i + |u|])
  {
    var u := s[i..RunEnd(s, i + |MeetPrefix|)];
    assert |u| > |MeetPrefix|;
    forall k | 0 <= k < |MeetPrefix|
      ensures u[k] == s[i + k] == MeetPrefix[k]
    {
      assert s[i..i + |MeetPrefix|][k] == s[i + k];
    }
    assert u[..|MeetPrefix|] == MeetPrefix;
    forall k | |MeetPrefix| <= k < |u|
      ensures u[k] == s[i + k]
    {
    }
    assert u <= s[i..];
    u
  }

  /** There is only one leftmost match position. */
  lemma LeftmostUnique(s: string, i: int)
    requires LeftmostMatchAt(s, i)
    ensures forall j :: LeftmostMatchAt(s, j) ==> j == i
  {
  }

  /** The first match of the pattern in `s`, the way `re.findall(...)[0]`
      picks it: leftmost start, greedy (maximal) run of class characters. */
  function FindMeetLink(s: string): (r: Option<string>)
    ensures r.None? <==> forall i :: !MatchAt(s, i)
    ensures r.Some? ==> IsMeetLink(r.value) && IsSubstringOf(r.value, s)
    ensures forall i :: LeftmostMatchAt(s, i) ==>
      && r.Some?
      && r.value <= s[i..]
      && (i + |r.value| < |s| ==> !IsLinkChar(s[i + |r.value|]))
  {
    match MatchFrom(s, 0)
    case None => None
    case Some(i) =>
      LeftmostUnique(s, i);
      Some(LinkAt(s, i))
  }

  /** Python truthiness of the extracted value: `None` and `""` are falsy. */
  predicate Truthy(u: Option<string>) {
    u.Some? && u.value != ""
  }

  /** `extract_google_meet_url`: the `uri` of the first video entry point when
      the conference data has one (even when that `uri` is missing), else the
      first Meet link in the description, else nothing. */
  function ExtractMeetUrl(e: Event): (r: Option<string>)
    ensures forall k :: e.conferenceData.Some? && FirstVideoAt(e.conferenceData.value.entryPoints, k) ==>
      r == e.conferenceData.value.entryPoints[k].uri
    ensures !HasVideoEntry(e) ==> r == FindMeetLink(e.description)
  {
    var fromConference :=
      match e.conferenceData
      case Some(cd) =>
        (match FirstVideoFrom(cd.entryPoints, 0)
         case Some(k) => Some(cd.entryPoints[k].uri)
         case None => None)
      case None => None;
    match fromConference
    case Some(uri) => uri
    case None => FindMeetLink(e.description)
  }
}
